/** The switch's tables with its connection records on the heap. */
module SwitchStates {
  import opened Lists
  import opened Maps
  import opened SwitchTokens
  import opened Wire

  class ConnInfo {
    var role: Role
    var name: string

    /** The connection the record was made for. */
    ghost const id: nat

    constructor (ghost id: nat, role: Role, name: string)
      ensures this.id == id && Value() == Info(role, name)
    {
      this.id, this.role, this.name := id, role, name;
    }

    ghost function Value(): Info
      reads this
    {
      Info(role, name)
    }
  }

  class SwitchState {
    var pendingTokens: map<uint64, Token>
    var agents: seq<ConnInfo>
    var conductor: ConnInfo?

    /** The records allocated and not deleted, and the state they make up. */
    ghost var records: map<nat, ConnInfo>
    ghost var live: set<ConnInfo>
    ghost var view: State

    ghost predicate Holds(info: ConnInfo)
      reads this
    {
      info in live && info.id in records && records[info.id] == info
    }

    /** No pointer dangles, and the fields say what `view` says. */
    ghost predicate Valid()
      reads this, live
    {
      && Tidy(view)
      && records.Keys == view.infos.Keys
      && (forall c <- records :: records[c] in live && records[c].id == c && records[c].Value() == view.infos[c])
      && Listing(view.agents, agents, records)
      && (if conductor == null then view.conductor == Unlinked
          else Holds(conductor) && view.conductor == Linked(conductor.id))
      && view.pending == pendingTokens
    }

    constructor ()
      ensures Valid() && view == START && conductor != null && Holds(conductor) && fresh(live)
    {
      var info := new ConnInfo(TO_CONDUCTOR, ToConductor, "conductor");
      pendingTokens, agents, conductor := map[], [], info;
      records, live, view := map[TO_CONDUCTOR := info], {info}, START;
    }

    /** What the accept loop does with a new connection. */
    method OnAccept(ghost c: nat) returns (info: ConnInfo)
      requires Valid() && c !in view.infos
      modifies this`records, this`live, this`view
      ensures Valid() && view == Apply(old(view), Join(c))
      ensures fresh(info) && live == old(live) + {info}
    {
      info := new ConnInfo(c, AgentPending, "");
      Adopt(info);
    }

    ghost method Adopt(info: ConnInfo)
      requires Valid() && info !in live && info.id !in view.infos
      modifies this`records, this`live, this`view
      ensures Valid() && live == old(live) + {info}
      ensures view == old(view).(infos := old(view).infos[info.id := info.Value()],
                                 open := old(view).open + {info.id})
    {
      records := records[info.id := info];
      live := live + {info};
      view := view.(infos := view.infos[info.id := info.Value()], open := view.open + {info.id});
      assert forall other :: old(Holds(other)) ==> Holds(other);
    }

    /** `expire_tokens`: the loop visits every token once, in whatever order the table has them. */
    method ExpireTokens(now: int)
      requires Valid()
      modifies this`pendingTokens, this`view
      ensures Valid() && view == Apply(old(view), Expire(now))
    {
      var unseen := pendingTokens.Keys;
      while unseen != {}
        invariant unseen <= pendingTokens.Keys <= old(pendingTokens).Keys
        invariant forall t <- old(pendingTokens) ::
                    t in pendingTokens <==> t in unseen || now - old(pendingTokens)[t].created <= TOKEN_EXPIRY
        invariant forall t <- pendingTokens :: pendingTokens[t] == old(pendingTokens)[t]
        modifies this`pendingTokens
        decreases |unseen|
      {
        var t :| t in unseen;
        unseen := unseen - {t};
        if now - pendingTokens[t].created > TOKEN_EXPIRY {
          pendingTokens := pendingTokens - {t};
        }
      }
      SameMap(pendingTokens, Unexpired(old(pendingTokens), now));
      view := view.(pending := pendingTokens);
    }

    /** `onAgentConnectionToken`. */
    method OnAgentConnectionToken(info: ConnInfo, agent: string, token: uint64, now: int)
      requires Valid() && Holds(info) && info.id in view.open
      modifies this`pendingTokens, this`view
      ensures Valid() && view == Apply(old(view), Announce(info.id, agent, token, now))
    {
      pendingTokens := pendingTokens[token := Token(agent, now)];
      view := Apply(view, Announce(info.id, agent, token, now));
    }

    /** `onAuthConnectToSwitch`; the queue closes the connection when it is rejected. */
    method OnAuthConnectToSwitch(info: ConnInfo, token: uint64) returns (accepted: bool)
      requires Valid() && Holds(info) && info.id in view.open
      modifies this`pendingTokens, this`agents, this`view, info
      ensures Valid() && view == Apply(old(view), Present(info.id, token))
      ensures accepted == Accepted(old(view), Present(info.id, token))
    {
      accepted := token in pendingTokens;
      if !accepted {
        view := view.(open := view.open - {info.id});
        return;
      }
      Record(info, pendingTokens[token].agent);
      pendingTokens := pendingTokens - {token};
      view := view.(pending := pendingTokens);
      agents := agents + [info];
      view := view.(agents := view.agents + [info.id]);
    }

    method Record(info: ConnInfo, name: string)
      requires Valid() && Holds(info)
      modifies this`view, info
      ensures Valid() && info.Value() == Info(AgentAuthenticated, name)
      ensures view == old(view).(infos := old(view).infos[info.id := Info(AgentAuthenticated, name)])
    {
      info.role, info.name := AgentAuthenticated, name;
      view := view.(infos := view.infos[info.id := Info(AgentAuthenticated, name)]);
    }

    /** `onClose` deletes the record; by then nothing leads to it any more. */
    method OnClose(info: ConnInfo)
      requires Valid() && Holds(info) && info.id in view.open
      modifies this`agents, this`conductor, this`records, this`live, this`view
      ensures Valid() && view == Apply(old(view), Closed(info.id))
      ensures live == old(live) - {info} && info !in agents && conductor != info
    {
      if info.role == AgentAuthenticated {
        RemoveAgent(info);
      }
      assert info !in agents;
      if conductor == info {
        conductor := null;
        view := view.(conductor := Unlinked);
      }
      Delete(info);
    }

    method RemoveAgent(info: ConnInfo)
      requires Valid() && Holds(info)
      modifies this`agents, this`view
      ensures Valid() && info !in agents && view == old(view).(agents := Without(old(view).agents, info.id))
    {
      ListingWithout(view.agents, agents, records, info.id, info);
      WithoutHolds(agents, info);
      WithoutHolds(view.agents, info.id);
      ghost var ids := Without(view.agents, info.id);
      assert forall i :: 0 <= i < |ids| ==> ids[i] in view.agents;
      agents := Without(agents, info);
      view := view.(agents := ids);
    }

    method Delete(info: ConnInfo)
      requires Valid() && Holds(info) && info !in agents && info != conductor
      modifies this`records, this`live, this`view
      ensures Valid() && live == old(live) - {info}
      ensures view == old(view).(infos := old(view).infos - {info.id}, open := old(view).open - {info.id})
    {
      records := records - {info.id};
      live := live - {info};
      view := view.(infos := view.infos - {info.id}, open := view.open - {info.id});
    }
  }
}
