/** The conductor with its connection records on the heap. */
module ConductorStates {
  import opened Conductor
  import opened Lists
  import opened Maps
  import opened RoundRobin
  import opened Wire

  class ConnInfo {
    var role: Role
    var name: string
    var network: string

    /** The connection the record was made for. */
    ghost const id: nat

    constructor (ghost id: nat)
      ensures this.id == id && Value() == Info(Unknown, "", "")
    {
      this.id, role, name, network := id, Unknown, "", "";
    }

    ghost function Value(): Info
      reads this
    {
      Info(role, name, network)
    }
  }

  class ConductorState {
    var switches: seq<ConnInfo>
    var agents: seq<ConnInfo>
    var pendingTokens: seq<PendingToken>
    var rrIndex: nat

    /** The records allocated and not deleted, and the state they make up. */
    ghost var records: map<nat, ConnInfo>
    ghost var live: set<ConnInfo>
    ghost var view: State

    ghost predicate Holds(info: ConnInfo)
      reads this
    {
      info.id in records && records[info.id] == info
    }

    /** No pointer in a list dangles, and the fields say what `view` says. */
    ghost predicate Valid()
      reads this, live
    {
      && Sound(view)
      && records.Keys == view.infos.Keys
      && (forall c <- records :: records[c] in live && records[c].id == c && records[c].Value() == view.infos[c])
      && Listing(view.switches, switches, records)
      && Listing(view.agents, agents, records)
      && view.pending == pendingTokens && view.rr == rrIndex
    }

    constructor ()
      ensures Valid() && view == START && live == {}
    {
      switches, agents, pendingTokens, rrIndex := [], [], [], 0;
      records, live, view := map[], {}, START;
    }

    /** What the accept loop does with a new connection. */
    method OnAccept(ghost c: nat) returns (info: ConnInfo)
      requires Valid() && c !in view.infos
      modifies this`records, this`live, this`view
      ensures Valid() && view == Apply(old(view), Accept(c))
      ensures fresh(info) && live == old(live) + {info}
    {
      info := new ConnInfo(c);
      Adopt(info);
    }

    ghost method Adopt(info: ConnInfo)
      requires Valid() && info !in live && info.id !in view.infos
      modifies this`records, this`live, this`view
      ensures Valid() && live == old(live) + {info}
      ensures view == Register(old(view), info.id, info.Value()).(open := old(view).open + {info.id})
    {
      records := records[info.id := info];
      live := live + {info};
      view := Register(view, info.id, info.Value()).(open := view.open + {info.id});
      assert forall other :: old(Holds(other)) ==> Holds(other);
    }

    /** What registering writes into the record. */
    method Record(info: ConnInfo, role: Role, name: string, network: string)
      requires Valid() && Holds(info)
      modifies this`view, info
      ensures Valid() && info.Value() == Info(role, name, network)
      ensures view == Register(old(view), info.id, Info(role, name, network))
    {
      info.role, info.name, info.network := role, name, network;
      view := Register(view, info.id, Info(role, name, network));
    }

    method PushSwitch(info: ConnInfo)
      requires Valid() && Holds(info)
      modifies this`switches, this`view
      ensures Valid() && view == old(view).(switches := old(view).switches + [info.id])
    {
      switches := switches + [info];
      view := view.(switches := view.switches + [info.id]);
    }

    method PushPending(p: PendingToken)
      requires Valid()
      modifies this`pendingTokens, this`view
      ensures Valid() && view == old(view).(pending := old(view).pending + [p])
    {
      pendingTokens := pendingTokens + [p];
      view := view.(pending := pendingTokens);
    }

    /** The queue lets go of a connection by itself: `onClose` is not called, and the record stays. */
    ghost method Drop(info: ConnInfo)
      requires Valid()
      modifies this`view
      ensures Valid() && view == old(view).(open := old(view).open - {info.id})
    {
      view := view.(open := view.open - {info.id});
    }

    method PushAgent(info: ConnInfo)
      requires Valid() && Holds(info)
      modifies this`agents, this`view
      ensures Valid() && view == old(view).(agents := old(view).agents + [info.id])
    {
      agents := agents + [info];
      view := view.(agents := view.agents + [info.id]);
    }

    /** `pick_switch`. */
    method PickSwitch(agentNetwork: string) returns (sw: ConnInfo?)
      requires Valid()
      modifies this`rrIndex, this`view
      ensures Valid()
      ensures view == if view.switches == [] then old(view)
                      else old(view).(rr := Pick(Reach(old(view), agentNetwork), old(view).rr).1)
      ensures view.switches == [] ==> sw == null
      ensures view.switches != [] ==> sw != null && Stands(sw, old(view), Chosen(old(view), agentNetwork))
    {
      ListLength();
      if switches == [] { return null; }
      var start, n := rrIndex, |switches|;
      ghost var r := Reach(view, agentNetwork);
      hide Valid, Reach, Pick, Search, Stands;
      var i := 0;
      while i < n
        invariant 0 <= i <= n && Valid() && view == old(view)
        invariant Search(r, start, n) == Search(r, start + i, n - i)
      {
        var idx := (start + i) % n;
        sw := switches[idx];
        var reachable := sw.network == agentNetwork || sw.network == "::internet";
        IsReachable(agentNetwork, idx);
        OneTurn(r, start, i, idx);
        if reachable {
          sw := Take(idx, idx + 1);
          return;
        }
        i := i + 1;
      }
      NoTurnLeft(r, start);
      sw := Take(start % n, start + 1);
    }

    /** `sw` is the record of the switch at position `i`. */
    ghost predicate Stands(sw: ConnInfo, s: State, i: nat)
      reads this, sw
      requires i < |s.switches| && Sound(s)
    {
      Holds(sw) && sw.id == s.switches[i] && sw.name == s.infos[sw.id].name
    }

    method Take(idx: nat, next: nat) returns (sw: ConnInfo)
      requires Valid() && idx < |switches|
      modifies this`rrIndex, this`view
      ensures Valid() && view == old(view).(rr := next)
      ensures idx < |old(view).switches| && Stands(sw, old(view), idx)
    {
      sw := switches[idx];
      rrIndex := next;
      view := view.(rr := next);
      assert Holds(sw);
    }

    lemma ListLength()
      requires Valid()
      ensures |switches| == |view.switches| && rrIndex == view.rr
    {
    }

    lemma IsReachable(agentNetwork: string, i: nat)
      requires Valid() && i < |switches|
      ensures Reach(view, agentNetwork)[i] <==>
              switches[i].network == agentNetwork || switches[i].network == "::internet"
    {
      assert Holds(switches[i]) && view.switches[i] == switches[i].id;
    }

    /** `remove_switch`. */
    method RemoveSwitch(info: ConnInfo)
      requires Valid() && Holds(info)
      modifies this`switches, this`pendingTokens, this`view
      ensures Valid()
      ensures info !in switches
      ensures view == old(view).(switches := Without(old(view).switches, info.id),
                                 pending := NotFor(old(view).pending, info.name))
    {
      ListingWithout(view.switches, switches, records, info.id, info);
      WithoutHolds(switches, info);
      switches := Without(switches, info);
      pendingTokens := NotFor(pendingTokens, info.name);
      view := view.(switches := Without(view.switches, info.id), pending := pendingTokens);
    }

    /** `remove_agent`. */
    method RemoveAgent(info: ConnInfo)
      requires Valid() && Holds(info)
      modifies this`agents, this`view
      ensures Valid()
      ensures info !in agents
      ensures view == old(view).(agents := Without(old(view).agents, info.id))
    {
      ListingWithout(view.agents, agents, records, info.id, info);
      WithoutHolds(agents, info);
      agents := Without(agents, info);
      view := view.(agents := Without(view.agents, info.id));
    }

    /** `onSwitchMIP`. */
    method OnSwitchMip(info: ConnInfo, name: string, network: string)
      requires Valid() && Holds(info) && info.id in view.open
      modifies this`switches, this`view, info
      ensures Valid() && view == Apply(old(view), SwitchMip(info.id, name, network))
    {
      Record(info, SwitchConn, name, network);
      PushSwitch(info);
    }

    /** `onAgentMIP`; the queue closes the connection when `sw` is null. */
    method OnAgentMip(info: ConnInfo, name: string, network: string, token: uint64, toldAgent: bool, toldSwitch: bool)
      returns (sw: ConnInfo?)
      requires Valid() && Holds(info) && info.id in view.open
      modifies this`agents, this`pendingTokens, this`rrIndex, this`view, info
      ensures Valid()
      ensures view == Apply(old(view), AgentMip(info.id, name, network, token, toldAgent, toldSwitch))
      ensures Issued(old(view), AgentMip(info.id, name, network, token, toldAgent, toldSwitch)) ==
              if sw == null then [] else [Notice(sw.id, name, token)]
    {
      hide Pick, Reach, Valid;
      Record(info, AgentConn, name, network);
      sw := PickSwitch(network);
      if sw == null {
        Drop(info);
        return;
      }
      if !toldAgent { return; }
      if !toldSwitch { return; }
      PushPending(PendingToken(name, sw.name, token));
      PushAgent(info);
    }

    /** `onAgentMRP`. */
    method OnAgentMrp(info: ConnInfo, name: string)
      requires Valid() && Holds(info) && info.id in view.open
      modifies this`agents, this`view, info
      ensures Valid() && view == Apply(old(view), AgentMrp(info.id, name))
    {
      Record(info, AgentConn, name, info.network);
      PushAgent(info);
    }

    /** `onClose` deletes the record, so no list may keep it. */
    method OnClose(info: ConnInfo)
      requires Valid() && Holds(info) && info.id in view.open
      requires info in switches ==> info.role == SwitchConn
      requires info in agents ==> info.role == AgentConn
      modifies this`switches, this`agents, this`pendingTokens, this`records, this`live, this`view
      ensures Valid() && view == Apply(old(view), Closed(info.id))
      ensures live == old(live) - {info}
    {
      if info.role == SwitchConn {
        RemoveSwitch(info);
      } else if info.role == AgentConn {
        RemoveAgent(info);
      }
      Delete(info);
    }

    method Delete(info: ConnInfo)
      requires Valid() && Holds(info) && info !in switches && info !in agents
      modifies this`records, this`live, this`view
      ensures Valid() && live == old(live) - {info}
      ensures view == old(view).(infos := old(view).infos - {info.id}, open := old(view).open - {info.id})
    {
      records := records - {info.id};
      live := live - {info};
      view := view.(infos := view.infos - {info.id}, open := view.open - {info.id});
    }
  }
}
