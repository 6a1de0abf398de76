/** The tokens a switch waits for, and the agents it has let in. */
module SwitchTokens {
  import opened Lists
  import opened Wire

  datatype Role = ToConductor | AgentPending | AgentAuthenticated

  datatype Info = Info(role: Role, name: string)

  datatype Token = Token(agent: string, created: int)

  datatype Link = Linked(c: nat) | Unlinked

  /** `infos` are the connection records not yet deleted, `open` the connections in the event queue. */
  datatype State = State(infos: map<nat, Info>, open: set<nat>, pending: map<uint64, Token>, agents: seq<nat>,
                         conductor: Link)

  /** The connection to the conductor is there from the start. */
  const TO_CONDUCTOR: nat := 0
  const START := State(map[TO_CONDUCTOR := Info(ToConductor, "conductor")], {TO_CONDUCTOR}, map[], [],
                       Linked(TO_CONDUCTOR))

  /** Nanoseconds in the 60 seconds a token is good for. */
  const TOKEN_EXPIRY: int := 60_000_000_000

  datatype Event =
    | Join(c: nat)
    | Announce(c: nat, agent: string, token: uint64, now: int)
    | Present(c: nat, token: uint64)
    | Expire(now: int)
    | Closed(c: nat)

  function Unexpired(pending: map<uint64, Token>, now: int): map<uint64, Token> {
    map t <- pending | now - pending[t].created <= TOKEN_EXPIRY :: pending[t]
  }

  predicate Accepted(s: State, e: Event) {
    e.Present? && e.c in s.open && e.token in s.pending
  }

  function Apply(s: State, e: Event): State {
    match e
    case Join(c) =>
      if c in s.infos then s else s.(infos := s.infos[c := Info(AgentPending, "")], open := s.open + {c})
    case Announce(c, agent, token, now) =>
      // whoever the notice comes from
      if c !in s.open then s else s.(pending := s.pending[token := Token(agent, now)])
    case Present(c, token) =>
      if c !in s.open then s
      else if token !in s.pending then s.(open := s.open - {c})
      else s.(infos := s.infos[c := Info(AgentAuthenticated, s.pending[token].agent)],
              pending := s.pending - {token},
              agents := s.agents + [c])
    case Expire(now) => s.(pending := Unexpired(s.pending, now))
    case Closed(c) => if c !in s.open then s else Forget(s, c)
  }

  /** `onClose`. */
  function Forget(s: State, c: nat): State {
    s.(infos := s.infos - {c},
       open := s.open - {c},
       agents := if c in s.infos && s.infos[c].role == AgentAuthenticated then Without(s.agents, c) else s.agents,
       conductor := if s.conductor == Linked(c) then Unlinked else s.conductor)
  }

  // --- Records ---

  /** The list and the link lead to records that exist, and the list to authenticated agents. */
  ghost predicate Tidy(s: State) {
    && s.open <= s.infos.Keys
    && (forall i :: 0 <= i < |s.agents| ==> s.agents[i] in s.infos && s.infos[s.agents[i]].role == AgentAuthenticated)
    && (s.conductor.Linked? ==> s.conductor.c in s.infos)
  }

  function After(log: seq<Event>): State {
    if log == [] then START else Apply(After(log[..|log| - 1]), log[|log| - 1])
  }

  lemma ApplyKeepsTidy(s: State, e: Event)
    requires Tidy(s)
    ensures Tidy(Apply(s, e))
    ensures e.Closed? && e.c in s.open ==>
      var t := Apply(s, e);
      e.c !in t.agents && e.c !in t.infos && e.c !in t.open && t.conductor != Linked(e.c)
  {
    if e.Closed? && e.c in s.open {
      WithoutHolds(s.agents, e.c);
      var t := Apply(s, e);
      assert forall i :: 0 <= i < |t.agents| ==> t.agents[i] in s.agents;
    }
  }

  /** In every run no list leads to a deleted record, and closing a connection leaves it in no list. */
  lemma {:induction false} EveryRunTidy(log: seq<Event>)
    ensures Tidy(After(log))
  {
    if log != [] {
      EveryRunTidy(log[..|log| - 1]);
      ApplyKeepsTidy(After(log[..|log| - 1]), log[|log| - 1]);
    }
  }

  /** Every agent listed is connected. */
  ghost predicate AllConnected(s: State) {
    forall c <- s.agents :: c in s.open
  }

  /** An agent that was let in before is now rejected: the queue closes it, and `onClose` is not called. */
  predicate TurnsOut(s: State, e: Event) {
    e.Present? && e.c in s.agents && e.token !in s.pending
  }

  /** One event leaves a listed agent unconnected exactly when it turns one out, or one was unconnected before. */
  lemma StaysConnectedIff(s: State, e: Event)
    requires Tidy(s)
    ensures AllConnected(Apply(s, e)) <==> AllConnected(s) && !TurnsOut(s, e)
  {
    var t := Apply(s, e);
    if e.Closed? && e.c in s.open {
      WithoutHolds(s.agents, e.c);
      if e.c in s.agents {
        var i :| 0 <= i < |s.agents| && s.agents[i] == e.c;
      }
    } else {
      assert forall c <- s.agents :: c in t.agents;
      if e.Join? && e.c !in s.infos {
        forall c | c in s.agents ensures c != e.c {
          var i :| 0 <= i < |s.agents| && s.agents[i] == c;
        }
      }
    }
  }

  predicate NoneTurnedOut(log: seq<Event>) {
    forall j :: 0 <= j < |log| ==> !TurnsOut(After(log[..j]), log[j])
  }

  lemma TurnedOutSnoc(log: seq<Event>, e: Event)
    ensures NoneTurnedOut(log + [e]) <==> NoneTurnedOut(log) && !TurnsOut(After(log), e)
  {
    hide TurnsOut, After;
    var all := log + [e];
    assert forall j :: 0 <= j < |log| ==> all[..j] == log[..j] && all[j] == log[j];
    assert all[..|log|] == log && all[|log|] == e;
    if NoneTurnedOut(all) {
      forall j | 0 <= j < |log| ensures !TurnsOut(After(log[..j]), log[j]) {
        assert !TurnsOut(After(all[..j]), all[j]);
      }
    }
  }

  /** The agents listed are all connected exactly when no agent let in has since presented another token in vain. */
  lemma {:induction false} ListedAreConnectedIff(log: seq<Event>)
    ensures AllConnected(After(log)) <==> NoneTurnedOut(log)
  {
    if log != [] {
      hide NoneTurnedOut, TurnsOut, AllConnected, Apply, Tidy;
      var before, e := log[..|log| - 1], log[|log| - 1];
      assert log == before + [e];
      ListedAreConnectedIff(before);
      EveryRunTidy(before);
      StaysConnectedIff(After(before), e);
      TurnedOutSnoc(before, e);
    }
  }

  /** It happens: an agent is let in with one token, presents another, and stays listed without a connection. */
  lemma TurnedOutStaysListed(agent: string)
    ensures var s := After([Join(1), Announce(TO_CONDUCTOR, agent, 7, 0), Present(1, 7), Present(1, 8)]);
            1 in s.agents && 1 !in s.open
  {
    var log := [Join(1), Announce(TO_CONDUCTOR, agent, 7, 0), Present(1, 7), Present(1, 8)];
    assert log[..3][..2][..1][..0] == [];
    assert After(log[..1]) == Apply(START, Join(1)) by {
      assert log[..1][..0] == [] && log[..1][0] == Join(1);
    }
    assert log[..2][..1] == log[..1] && log[..3][..2] == log[..2] && log[..4] == log;
    assert After(log[..2]) == Apply(After(log[..1]), log[1]);
    assert After(log[..3]) == Apply(After(log[..2]), log[2]);
    assert 1 in After(log[..3]).agents;
  }

  // --- Tokens ---

  /** What puts an end to the announcement `a`: a newer one, its use, or a late enough look at the clock. */
  predicate Ends(s: State, e: Event, a: Event)
    requires a.Announce?
  {
    || (e.Announce? && e.token == a.token && e.c in s.open)
    || (e.Present? && e.token == a.token && e.c in s.open)
    || (e.Expire? && e.now - a.now > TOKEN_EXPIRY)
  }

  /** `log[i]` announced `token` and still stands. */
  predicate Stands(log: seq<Event>, token: uint64, i: nat) {
    && i < |log| && log[i].Announce? && log[i].token == token && log[i].c in After(log[..i]).open
    && forall j :: i < j < |log| ==> !Ends(After(log[..j]), log[j], log[i])
  }

  predicate Standing(log: seq<Event>, token: uint64, t: Token) {
    exists i: nat | i < |log| :: Stands(log, token, i) && t == Token(log[i].agent, log[i].now)
  }

  lemma StandsBefore(log: seq<Event>, e: Event, token: uint64, i: nat)
    requires i < |log| && log[i].Announce?
    ensures Stands(log + [e], token, i) <==> Stands(log, token, i) && !Ends(After(log), e, log[i])
  {
    var all := log + [e];
    assert forall j :: 0 <= j <= |log| ==> all[..j] == log[..j];
    assert log[..|log|] == log && all[|log|] == e;
    if Stands(all, token, i) {
      assert forall j :: i < j < |log| ==> log[j] == all[j];
    }
  }

  lemma StandingSnoc(log: seq<Event>, e: Event, token: uint64, t: Token)
    ensures Standing(log + [e], token, t) <==>
      || (e.Announce? && e.token == token && e.c in After(log).open && t == Token(e.agent, e.now))
      || (Standing(log, token, t) && !Ends(After(log), e, Announce(0, t.agent, token, t.created)))
  {
    var all := log + [e];
    assert all[..|log|] == log;
    if Standing(log, token, t) {
      var i: nat :| i < |log| && Stands(log, token, i) && t == Token(log[i].agent, log[i].now);
      StandsBefore(log, e, token, i);
    }
    if e.Announce? && e.token == token && e.c in After(log).open && t == Token(e.agent, e.now) {
      assert Stands(all, token, |log|);
    }
    if Standing(all, token, t) {
      var i: nat :| i < |all| && Stands(all, token, i) && t == Token(all[i].agent, all[i].now);
      if i < |log| {
        StandsBefore(log, e, token, i);
      }
    }
  }

  /** After any log, the tokens waited for are those whose announcement still stands. */
  lemma {:induction false} PendingIffStanding(log: seq<Event>, token: uint64, t: Token)
    ensures token in After(log).pending && After(log).pending[token] == t <==> Standing(log, token, t)
  {
    if log != [] {
      var before, e := log[..|log| - 1], log[|log| - 1];
      assert log == before + [e];
      PendingIffStanding(before, token, t);
      StandingSnoc(before, e, token, t);
    }
  }

  /** So a token is accepted exactly when some announcement of it stands, and under the name announced. */
  lemma AcceptedIffStanding(log: seq<Event>, c: nat, token: uint64)
    requires c in After(log).open
    ensures Accepted(After(log), Present(c, token)) <==> exists t :: Standing(log, token, t)
    ensures forall t :: Standing(log, token, t) ==>
      Apply(After(log), Present(c, token)).infos[c] == Info(AgentAuthenticated, t.agent)
  {
    var s := After(log);
    forall t | Standing(log, token, t) ensures token in s.pending && s.pending[token] == t {
      PendingIffStanding(log, token, t);
    }
    if token in s.pending {
      PendingIffStanding(log, token, s.pending[token]);
    }
  }

  // --- Who is in, and the link to the conductor ---

  /** The last connection let in on `c` is not closed. */
  predicate LetInAt(log: seq<Event>, c: nat, i: nat) {
    && i < |log| && log[i].Present? && log[i].c == c && Accepted(After(log[..i]), log[i])
    && forall j :: i < j < |log| ==> !ClosesNow(After(log[..j]), log[j], c)
  }

  predicate ClosesNow(s: State, e: Event, c: nat) {
    e == Closed(c) && c in s.open
  }

  predicate LetIn(log: seq<Event>, c: nat) {
    exists i: nat | i < |log| :: LetInAt(log, c, i)
  }

  lemma LetInSnoc(log: seq<Event>, e: Event, c: nat)
    ensures LetIn(log + [e], c) <==>
            || (e.Present? && e.c == c && Accepted(After(log), e))
            || (LetIn(log, c) && !ClosesNow(After(log), e, c))
  {
    hide After, ClosesNow;
    var all := log + [e];
    assert all[..|log|] == log && all[|log|] == e;
    assert forall j :: 0 <= j < |log| ==> all[..j] == log[..j] && all[j] == log[j];
    if LetIn(all, c) {
      var i: nat :| i < |all| && LetInAt(all, c, i);
      if i < |log| {
        assert LetInAt(log, c, i);
      }
    }
    if e.Present? && e.c == c && Accepted(After(log), e) {
      assert LetInAt(all, c, |log|);
    } else if LetIn(log, c) && !ClosesNow(After(log), e, c) {
      var i: nat :| i < |log| && LetInAt(log, c, i);
      assert LetInAt(all, c, i);
    }
  }

  lemma AgentsStep(s: State, e: Event, c: nat)
    requires Tidy(s)
    ensures c in Apply(s, e).agents <==>
            (e.Present? && e.c == c && Accepted(s, e)) || (c in s.agents && !ClosesNow(s, e, c))
  {
    if e.Closed? {
      WithoutHolds(s.agents, e.c);
    }
  }

  /** The agents listed are those whose token was accepted and that `onClose` has not been called for since. */
  lemma {:induction false} ListedIffLetIn(log: seq<Event>, c: nat)
    ensures c in After(log).agents <==> LetIn(log, c)
  {
    if log != [] {
      var before, e := log[..|log| - 1], log[|log| - 1];
      assert log == before + [e];
      ListedIffLetIn(before, c);
      EveryRunTidy(before);
      AgentsStep(After(before), e, c);
      LetInSnoc(before, e, c);
    }
  }

  predicate ConductorLost(log: seq<Event>) {
    exists j :: 0 <= j < |log| && ClosesNow(After(log[..j]), log[j], TO_CONDUCTOR)
  }

  lemma ConductorLostSnoc(log: seq<Event>, e: Event)
    ensures ConductorLost(log + [e]) <==> ConductorLost(log) || ClosesNow(After(log), e, TO_CONDUCTOR)
  {
    hide After, ClosesNow;
    var all := log + [e];
    assert all[..|log|] == log && all[|log|] == e;
    assert forall j :: 0 <= j < |log| ==> all[..j] == log[..j] && all[j] == log[j];
    if j :| 0 <= j < |log| && ClosesNow(After(log[..j]), log[j], TO_CONDUCTOR) {
      assert ClosesNow(After(all[..j]), all[j], TO_CONDUCTOR);
    }
    if ClosesNow(After(log), e, TO_CONDUCTOR) {
      assert ClosesNow(After(all[..|log|]), all[|log|], TO_CONDUCTOR);
    }
  }

  lemma LinkStep(s: State, e: Event)
    requires s.conductor in {Linked(TO_CONDUCTOR), Unlinked}
    ensures Apply(s, e).conductor == if ClosesNow(s, e, TO_CONDUCTOR) then Unlinked else s.conductor
  {
  }

  /** The switch has its link to the conductor until that connection is closed. */
  lemma {:induction false} LinkedUntilLost(log: seq<Event>)
    ensures After(log).conductor == if ConductorLost(log) then Unlinked else Linked(TO_CONDUCTOR)
  {
    if log != [] {
      var before, e := log[..|log| - 1], log[|log| - 1];
      assert log == before + [e];
      LinkedUntilLost(before);
      ConductorLostSnoc(before, e);
      LinkStep(After(before), e);
      hide ConductorLost, Apply;
    }
  }

  // --- Closing the connection that is being served ---

  /** A handler closes, and so frees, the element whose message it handles, which `process` goes on to use. */
  predicate ClosesOwn(s: State, e: Event) {
    (e.Announce? || e.Present?) && e.c in s.open && e.c !in Apply(s, e).open
  }

  /** In any log no connection is closed while it is served exactly when only tokens that stand are presented. */
  lemma NoneClosesOwnIff(log: seq<Event>)
    ensures (forall j :: 0 <= j < |log| ==> !ClosesOwn(After(log[..j]), log[j])) <==>
            (forall j :: 0 <= j < |log| && log[j].Present? && log[j].c in After(log[..j]).open ==>
               exists t :: Standing(log[..j], log[j].token, t))
  {
    forall j | 0 <= j < |log| && log[j].Present? && log[j].c in After(log[..j]).open
      ensures ClosesOwn(After(log[..j]), log[j]) <==> !exists t :: Standing(log[..j], log[j].token, t)
    {
      AcceptedIffStanding(log[..j], log[j].c, log[j].token);
    }
  }

  /** A stranger with any token will do. */
  lemma StrangerIsClosed(token: uint64)
    ensures var log := [Join(1), Present(1, token)];
            ClosesOwn(After(log[..1]), log[1])
  {
    var log := [Join(1), Present(1, token)];
    assert log[..1][..0] == [] && log[..1][0] == Join(1);
  }
}
