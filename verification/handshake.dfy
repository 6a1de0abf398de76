/**
 The one-time tokens of conductor, switches and agents together: any interleaving, any loss or
 delay of notices, any token presented by any agent at any time.
 */
module Handshake {
  import C = Conductor
  import S = SwitchTokens
  import opened Wire

  type Notice = C.Notice

  /** An agent let in at a switch, under a name, for a token. */
  datatype Auth = Auth(switch: nat, conn: nat, agent: string, token: uint64)

  /**
   Switches are named by their connection to the conductor. `issued` and `auths` record what has
   happened so far; `inflight` are the notices on their way.
   */
  datatype World = World(cond: C.State, switches: map<nat, S.State>, inflight: seq<Notice>,
                         issued: seq<Notice>, auths: seq<Auth>)

  const BEGINNING := World(C.START, map[], [], [], [])

  datatype Step =
    | Boot(s: nat)
    | Control(e: C.Event)
    | Deliver(i: nat, now: int)
    | Lose(i: nat)
    | At(s: nat, x: S.Event)

  function Tokens(ns: seq<Notice>): set<uint64> {
    set n <- ns :: n.token
  }

  function Spent(auths: seq<Auth>): set<uint64> {
    set a <- auths :: a.token
  }

  function Omit(ns: seq<Notice>, i: nat): seq<Notice>
    requires i < |ns|
  {
    ns[..i] + ns[i + 1..]
  }

  /** What a switch makes of an event; an announcement may come from anyone. */
  function Hear(w: World, s: nat, x: S.Event): World
    requires s in w.switches
  {
    var sw := w.switches[s];
    w.(switches := w.switches[s := S.Apply(sw, x)],
       auths := w.auths + if S.Accepted(sw, x) then [Auth(s, x.c, sw.pending[x.token].agent, x.token)] else [])
  }

  /**
   Tokens are fresh, notices come over the switch's own connection to the conductor, and the
   conductor keeps no pointer to a record it has deleted. Who registers what, and how often, is free.
   */
  predicate Allowed(w: World, step: Step)
    requires C.Sound(w.cond)
  {
    match step
    case Boot(s) => s !in w.switches
    case Control(e) => C.Fitting(w.cond, e) && (e.AgentMip? ==> e.token !in Tokens(w.issued))
    case Deliver(i, _) => i < |w.inflight|
    case Lose(i) => i < |w.inflight|
    case At(s, x) => s in w.switches && !x.Announce?
  }

  function Next(w: World, step: Step): World
    requires C.Sound(w.cond) && Allowed(w, step)
  {
    match step
    case Boot(s) => w.(switches := w.switches[s := S.START])
    case Control(e) =>
      w.(cond := C.Apply(w.cond, e),
         issued := w.issued + C.Issued(w.cond, e),
         inflight := w.inflight + C.Sent(w.cond, e))
    case Deliver(i, now) =>
      var n := w.inflight[i];
      var gone := w.(inflight := Omit(w.inflight, i));
      if n.switch !in w.switches then gone
      else Hear(gone, n.switch, S.Announce(S.TO_CONDUCTOR, n.agent, n.token, now))
    case Lose(i) => w.(inflight := Omit(w.inflight, i))
    case At(s, x) => Hear(w, s, x)
  }

  // --- Where a token can be ---

  ghost predicate TokensDiffer(ns: seq<Notice>) {
    forall i, j :: 0 <= i < j < |ns| ==> ns[i].token != ns[j].token
  }

  ghost predicate AuthsDiffer(auths: seq<Auth>) {
    forall i, j :: 0 <= i < j < |auths| ==> auths[i].token != auths[j].token
  }

  /** Waiting at `s`, a token was issued for `s` and this agent, and is nowhere else. */
  ghost predicate WaitsRightly(w: World, s: nat, t: uint64, agent: string) {
    C.Notice(s, agent, t) in w.issued && t !in Tokens(w.inflight) && t !in Spent(w.auths)
  }

  /** Every token is on its way at most once, or waits where it should, or has been used once, or is gone. */
  ghost predicate Secure(w: World) {
    && TokensDiffer(w.issued) && TokensDiffer(w.inflight) && AuthsDiffer(w.auths)
    && (forall n <- w.inflight :: n in w.issued)
    && (forall a <- w.auths :: C.Notice(a.switch, a.agent, a.token) in w.issued && a.token !in Tokens(w.inflight))
    && (forall s <- w.switches, t <- w.switches[s].pending :: WaitsRightly(w, s, t, w.switches[s].pending[t].agent))
  }

  lemma OmitHolds(ns: seq<Notice>, i: nat)
    requires i < |ns| && TokensDiffer(ns)
    ensures TokensDiffer(Omit(ns, i)) && (forall n <- Omit(ns, i) :: n in ns)
    ensures Tokens(Omit(ns, i)) == Tokens(ns) - {ns[i].token}
  {
    var rest := Omit(ns, i);
    forall n | n in ns && n.token != ns[i].token ensures n in rest {
      var j :| 0 <= j < |ns| && ns[j] == n;
      assert rest[if j < i then j else j - 1] == n;
    }
  }

  lemma LoseKeeps(w: World, i: nat)
    requires Secure(w) && i < |w.inflight|
    ensures var t, v := w.inflight[i].token, w.(inflight := Omit(w.inflight, i));
            Secure(v) && t !in Tokens(v.inflight) && t !in Spent(w.auths) && w.inflight[i] in w.issued
  {
    OmitHolds(w.inflight, i);
    assert w.inflight[i].token in Tokens(w.inflight);
    var v := w.(inflight := Omit(w.inflight, i));
    forall s, t | s in v.switches && t in v.switches[s].pending
      ensures WaitsRightly(v, s, t, v.switches[s].pending[t].agent)
    {
      assert WaitsRightly(w, s, t, w.switches[s].pending[t].agent);
    }
  }

  lemma AnnouncingKeepsIff(w: World, s: nat, x: S.Event)
    requires Secure(w) && s in w.switches && x.Announce? && x.c in w.switches[s].open
    ensures Secure(Hear(w, s, x)) <==> WaitsRightly(w, s, x.token, x.agent)
  {
    var v := Hear(w, s, x);
    if WaitsRightly(w, s, x.token, x.agent) {
      forall r, t | r in v.switches && t in v.switches[r].pending
        ensures WaitsRightly(v, r, t, v.switches[r].pending[t].agent)
      {
        if r != s || t != x.token {
          assert WaitsRightly(w, r, t, w.switches[r].pending[t].agent);
        }
      }
    } else {
      assert !WaitsRightly(v, s, x.token, v.switches[s].pending[x.token].agent);
    }
  }

  lemma HearingKeeps(w: World, s: nat, x: S.Event)
    requires Secure(w) && s in w.switches && !x.Announce?
    ensures Secure(Hear(w, s, x))
  {
    var sw, v := w.switches[s], Hear(w, s, x);
    if S.Accepted(sw, x) {
      assert WaitsRightly(w, s, x.token, sw.pending[x.token].agent);
      forall r, t | r in v.switches && t in v.switches[r].pending
        ensures WaitsRightly(v, r, t, v.switches[r].pending[t].agent)
      {
        assert WaitsRightly(w, r, t, w.switches[r].pending[t].agent);
      }
    } else {
      forall r, t | r in v.switches && t in v.switches[r].pending
        ensures WaitsRightly(v, r, t, v.switches[r].pending[t].agent)
      {
        assert WaitsRightly(w, r, t, w.switches[r].pending[t].agent);
      }
    }
  }

  lemma IssuingKeeps(w: World, e: C.Event)
    requires Secure(w) && C.Sound(w.cond) && Allowed(w, Control(e))
    ensures Secure(Next(w, Control(e)))
  {
    var v := Next(w, Control(e));
    assert forall n <- C.Issued(w.cond, e) :: n.token == e.token;
    forall a | a in w.auths ensures a.token !in Tokens(v.inflight) {
      assert C.Notice(a.switch, a.agent, a.token).token in Tokens(w.issued);
    }
    forall s, t | s in v.switches && t in v.switches[s].pending
      ensures WaitsRightly(v, s, t, v.switches[s].pending[t].agent)
    {
      assert WaitsRightly(w, s, t, w.switches[s].pending[t].agent);
      assert C.Notice(s, w.switches[s].pending[t].agent, t).token in Tokens(w.issued);
    }
    forall n | n in w.inflight ensures n.token in Tokens(w.issued) {
      assert n in w.issued;
    }
  }

  lemma NextKeeps(w: World, step: Step)
    requires Secure(w) && C.Sound(w.cond) && Allowed(w, step)
    ensures Secure(Next(w, step))
  {
    match step
    case Boot(s) =>
      var v := Next(w, step);
      forall r, t | r in v.switches && t in v.switches[r].pending
        ensures WaitsRightly(v, r, t, v.switches[r].pending[t].agent)
      {
        assert WaitsRightly(w, r, t, w.switches[r].pending[t].agent);
      }
    case Control(e) => IssuingKeeps(w, e);
    case Deliver(i, now) =>
      LoseKeeps(w, i);
      var n, gone := w.inflight[i], w.(inflight := Omit(w.inflight, i));
      if n.switch in w.switches && S.TO_CONDUCTOR in w.switches[n.switch].open {
        assert WaitsRightly(gone, n.switch, n.token, n.agent);
        AnnouncingKeepsIff(gone, n.switch, S.Announce(S.TO_CONDUCTOR, n.agent, n.token, now));
      } else if n.switch in w.switches {
        assert Next(w, step) == gone by {
          assert w.switches[n.switch := w.switches[n.switch]] == w.switches;
        }
      }
    case Lose(i) => LoseKeeps(w, i);
    case At(s, x) => HearingKeeps(w, s, x);
  }

  // --- Runs ---

  lemma NextStaysSound(w: World, step: Step)
    requires C.Sound(w.cond) && Allowed(w, step)
    ensures C.Sound(Next(w, step).cond)
  {
    if step.Control? {
      C.StaysSoundIff(w.cond, step.e);
    }
  }

  ghost predicate Run(w: World, steps: seq<Step>)
    requires C.Sound(w.cond)
    decreases |steps|
  {
    steps == [] ||
    (Allowed(w, steps[0]) && (NextStaysSound(w, steps[0]); Run(Next(w, steps[0]), steps[1..])))
  }

  ghost function After(w: World, steps: seq<Step>): World
    requires C.Sound(w.cond) && Run(w, steps)
    decreases |steps|
  {
    if steps == [] then w else NextStaysSound(w, steps[0]); After(Next(w, steps[0]), steps[1..])
  }

  /** Whoever was let in used a token issued for that name and switch, no other token, and it is gone. */
  ghost predicate Authentic(w: World, i: nat)
    requires i < |w.auths|
  {
    var a := w.auths[i];
    && C.Notice(a.switch, a.agent, a.token) in w.issued
    && (forall j :: 0 <= j < |w.auths| && j != i ==> w.auths[j].token != a.token)
    && (forall n <- w.inflight :: n.token != a.token)
    && (forall s <- w.switches :: a.token !in w.switches[s].pending)
  }

  ghost predicate AllAuthentic(w: World) {
    forall i :: 0 <= i < |w.auths| ==> Authentic(w, i)
  }

  lemma SecureIsAuthentic(w: World)
    requires Secure(w)
    ensures AllAuthentic(w)
  {
    forall i | 0 <= i < |w.auths| ensures Authentic(w, i) {
      var a := w.auths[i];
      assert a in w.auths && a.token in Spent(w.auths);
      forall s, t | s in w.switches && t in w.switches[s].pending ensures t != a.token {
        assert WaitsRightly(w, s, t, w.switches[s].pending[t].agent);
      }
      forall n | n in w.inflight ensures n.token != a.token {
        assert n.token in Tokens(w.inflight);
      }
    }
  }

  lemma {:induction false} EveryRunSecure(w: World, steps: seq<Step>)
    requires Secure(w) && C.Sound(w.cond) && Run(w, steps)
    ensures Secure(After(w, steps))
    decreases |steps|
  {
    if steps != [] {
      NextKeeps(w, steps[0]);
      NextStaysSound(w, steps[0]);
      EveryRunSecure(Next(w, steps[0]), steps[1..]);
    }
  }

  /**
   The point of the handshake: whoever is let in under a name at a switch used a token issued
   for just that name and switch, no two have used the same one, and a used one never comes back.
   */
  lemma EveryAuthIsIssuedOnce(steps: seq<Step>)
    requires Run(BEGINNING, steps)
    ensures AllAuthentic(After(BEGINNING, steps))
  {
    EveryRunSecure(BEGINNING, steps);
    SecureIsAuthentic(After(BEGINNING, steps));
  }

  /** Each connection registers at the conductor once, or as `Conductor.Orderly` allows. */
  ghost predicate OrderlyRun(w: World, steps: seq<Step>)
    requires C.Sound(w.cond) && Run(w, steps)
    decreases |steps|
  {
    steps == [] ||
    (&& (steps[0].Control? ==> C.Allowed(w.cond, steps[0].e))
     && (NextStaysSound(w, steps[0]); OrderlyRun(Next(w, steps[0]), steps[1..])))
  }

  /**
   And what was issued was asked for, by an agent of that name, while the switch was listed; in an
   orderly run it was registered as a switch.
   */
  lemma {:induction false} IssuedWasAskedFor(w: World, steps: seq<Step>, n: Notice) returns (k: nat, v: World)
    requires C.Sound(w.cond) && Run(w, steps)
    requires n in After(w, steps).issued && n !in w.issued
    ensures k < |steps| && steps[k].Control? && steps[k].e.AgentMip?
    ensures steps[k].e.name == n.agent && steps[k].e.token == n.token
    ensures C.Sound(v.cond) && n.switch in v.cond.switches
    ensures C.Booked(w.cond) && OrderlyRun(w, steps) ==> v.cond.infos[n.switch].role == C.SwitchConn
    ensures Run(w, steps[..k]) && v == After(w, steps[..k])
    decreases |steps|
  {
    NextStaysSound(w, steps[0]);
    var next := Next(w, steps[0]);
    if n in next.issued {
      k, v := 0, w;
      assert steps[..0] == [];
    } else {
      if C.Booked(w.cond) && OrderlyRun(w, steps) && steps[0].Control? {
        C.BookedIff(w.cond, steps[0].e);
      }
      var j;
      j, v := IssuedWasAskedFor(next, steps[1..], n);
      k := j + 1;
      assert steps[..k][1..] == steps[1..][..j] && steps[..k][0] == steps[0];
    }
  }

  /**
   And it works: an agent that is told of its switch, whose notice arrives before it does, is let in
   there, on whatever connection it comes, under its own name.
   */
  lemma ToldAgentIsLetIn(w: World, e: C.Event, now: int, c: nat)
    requires C.Sound(w.cond) && Allowed(w, Control(e))
    requires e.AgentMip? && e.c in w.cond.open && e.toldAgent && e.toldSwitch && w.cond.switches != []
    requires var s := C.Issued(w.cond, e)[0].switch;
             s in w.switches && S.TO_CONDUCTOR in w.switches[s].open && c in w.switches[s].open
    ensures C.Sound(Next(w, Control(e)).cond)
    ensures var s, asked := C.Issued(w.cond, e)[0].switch, Next(w, Control(e));
            && C.Issued(w.cond, e)[0] == C.Notice(s, e.name, e.token)
            && asked.inflight == w.inflight + [C.Notice(s, e.name, e.token)]
            && var told := Next(asked, Deliver(|w.inflight|, now));
            && told.inflight == w.inflight
            && told.switches[s].pending == w.switches[s].pending[e.token := S.Token(e.name, now)]
            && var done := Next(told, At(s, S.Present(c, e.token)));
            && done.auths == w.auths + [Auth(s, c, e.name, e.token)]
            && e.token !in done.switches[s].pending
  {
    NextStaysSound(w, Control(e));
    var asked := Next(w, Control(e));
    assert Omit(asked.inflight, |w.inflight|) == w.inflight;
    var told := Next(asked, Deliver(|w.inflight|, now));
    assert told.auths == w.auths + [] == w.auths;
  }

  // --- Announcements from elsewhere ---

  lemma Unused(used: set<nat>) returns (c: nat)
    ensures forall d <- used :: d < c
  {
    if used == {} {
      c := 0;
    } else {
      var d :| d in used;
      var e := Unused(used - {d});
      c := if e > d then e else d + 1;
      assert forall f <- used :: f == d || f in used - {d};
    }
  }

  /** What a stranger does with a token that waits at `s`. */
  function StrangerSteps(s: nat, c: nat, token: uint64): seq<Step> {
    [At(s, S.Join(c)), At(s, S.Present(c, token))]
  }

  lemma TwoSteps(w: World, a: Step, b: Step)
    requires C.Sound(w.cond) && Allowed(w, a) && C.Sound(Next(w, a).cond) && Allowed(Next(w, a), b)
    ensures Run(w, [a, b]) && After(w, [a, b]) == Next(Next(w, a), b)
  {
    hide Next, Allowed;
    NextStaysSound(w, a);
    NextStaysSound(Next(w, a), b);
    assert [a, b][1..] == [b] && [b][1..] == [];
    assert Run(Next(Next(w, a), b), []);
    assert Run(Next(w, a), [b]);
    assert After(Next(w, a), [b]) == Next(Next(w, a), b);
  }

  lemma StrangerIsLetIn(w: World, s: nat, c: nat, token: uint64)
    requires C.Sound(w.cond) && s in w.switches && token in w.switches[s].pending
    requires c !in w.switches[s].infos
    ensures var steps := StrangerSteps(s, c, token);
            && Run(w, steps)
            && After(w, steps).issued == w.issued && After(w, steps).inflight == w.inflight
            && After(w, steps).auths == w.auths + [Auth(s, c, w.switches[s].pending[token].agent, token)]
  {
    var steps := StrangerSteps(s, c, token);
    var joined := Next(w, steps[0]);
    assert joined.auths == w.auths + [] == w.auths;
    TwoSteps(w, steps[0], steps[1]);
    assert steps == [steps[0], steps[1]];
  }

  /**
   Were an announcement heard from elsewhere, nothing could come of it, whatever happens next, exactly
   when the token was issued for that agent and switch and is neither on its way nor used. Otherwise
   a stranger is let in with it, against what was issued or with a token used or coming again.
   */
  lemma AnnouncementHarmlessIff(w: World, s: nat, x: S.Event)
    requires C.Sound(w.cond) && Secure(w)
    requires s in w.switches && x.Announce? && x.c in w.switches[s].open
    ensures WaitsRightly(w, s, x.token, x.agent) <==>
            forall steps :: Run(Hear(w, s, x), steps) ==> AllAuthentic(After(Hear(w, s, x), steps))
  {
    var v := Hear(w, s, x);
    if WaitsRightly(w, s, x.token, x.agent) {
      AnnouncingKeepsIff(w, s, x);
      forall steps | Run(v, steps) ensures AllAuthentic(After(v, steps)) {
        EveryRunSecure(v, steps);
        SecureIsAuthentic(After(v, steps));
      }
    } else {
      var c := Unused(v.switches[s].infos.Keys);
      StrangerIsLetIn(v, s, c, x.token);
      var done := After(v, StrangerSteps(s, c, x.token));
      if AllAuthentic(done) {
        GoodAuthWaited(done, w, Auth(s, c, x.agent, x.token));
      }
    }
  }

  lemma GoodAuthWaited(v: World, w: World, a: Auth)
    requires v.auths == w.auths + [a] && v.issued == w.issued && v.inflight == w.inflight
    requires AllAuthentic(v)
    ensures WaitsRightly(w, a.switch, a.token, a.agent)
  {
    assert v.auths[|w.auths|] == a && Authentic(v, |w.auths|);
    forall b | b in w.auths ensures b.token != a.token {
      var j :| 0 <= j < |w.auths| && w.auths[j] == b;
      assert v.auths[j] == b;
    }
  }

  /** One that repeats nothing lets in an agent nothing was issued for. */
  lemma UnaskedNoticeIsBelieved(agent: string, token: uint64)
    ensures var sw := S.Apply(S.START, S.Join(1));
            var w := BEGINNING.(switches := map[7 := sw]);
            var v := Hear(Hear(w, 7, S.Announce(1, agent, token, 0)), 7, S.Present(1, token));
            Secure(w) && v.auths == [Auth(7, 1, agent, token)] && v.issued == []
  {
  }
}
