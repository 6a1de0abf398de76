/** The next hop for each destination, and the log of updates it stands for. */
module Routing {
  import opened Wire
  import opened Maps

  type Routes = map<uint32, int>

  function Lookup(r: Routes, dest: uint32): int {
    if dest in r then r[dest] else -1
  }

  function Without(r: Routes, switchFd: int): Routes {
    map d <- r | r[d] != switchFd :: r[d]
  }

  /** What the switch reports to its routing table. */
  datatype RouteEvent = Update(dest: uint32, nextFd: int) | SwitchDown(fd: int)

  /** `on_route_update` and `on_switch_disconnected`. */
  function Apply(r: Routes, e: RouteEvent): Routes {
    match e
    case Update(dest, nextFd) => if nextFd < 0 then r - {dest} else r[dest := nextFd]
    case SwitchDown(fd) => Without(r, fd)
  }

  /** The table after a log, oldest event first. */
  function After(log: seq<RouteEvent>): Routes {
    if log == [] then map[] else Apply(After(log[..|log| - 1]), log[|log| - 1])
  }

  /** The last word of the log on `dest` is `fd`: nothing later is about `dest` or takes `fd` away. */
  predicate LastWord(log: seq<RouteEvent>, dest: uint32, fd: int, i: nat) {
    && i < |log| && log[i] == Update(dest, fd) && fd >= 0
    && (forall j :: i < j < |log| ==> log[j] != SwitchDown(fd) && !(log[j].Update? && log[j].dest == dest))
  }

  predicate Routed(log: seq<RouteEvent>, dest: uint32, fd: int) {
    exists i: nat | i < |log| :: LastWord(log, dest, fd, i)
  }

  lemma LastWordSnoc(log: seq<RouteEvent>, e: RouteEvent, dest: uint32, fd: int)
    ensures Routed(log + [e], dest, fd)
       <==> (e == Update(dest, fd) && fd >= 0)
            || (Routed(log, dest, fd) && e != SwitchDown(fd) && !(e.Update? && e.dest == dest))
  {
    var all := log + [e];
    if e == Update(dest, fd) && fd >= 0 {
      assert LastWord(all, dest, fd, |log|);
    } else if Routed(log, dest, fd) && e != SwitchDown(fd) && !(e.Update? && e.dest == dest) {
      var i: nat :| i < |log| && LastWord(log, dest, fd, i);
      assert LastWord(all, dest, fd, i);
    }
    if Routed(all, dest, fd) {
      var i: nat :| i < |all| && LastWord(all, dest, fd, i);
      if i < |log| {
        assert forall j :: i < j < |log| ==> log[j] == all[j];
        assert LastWord(log, dest, fd, i);
        assert all[|log|] == e;
      }
    }
  }

  /** A lookup finds exactly the last word of the log, and -1 exactly when there is none. */
  lemma {:induction false} LookupIsLastWord(log: seq<RouteEvent>, dest: uint32)
    ensures forall fd :: fd >= 0 ==> (Lookup(After(log), dest) == fd <==> Routed(log, dest, fd))
    ensures Lookup(After(log), dest) >= -1
    ensures forall d <- After(log) :: After(log)[d] >= 0
    decreases |log|
  {
    if log != [] {
      var front, e := log[..|log| - 1], log[|log| - 1];
      assert log == front + [e];
      LookupIsLastWord(front, dest);
      forall fd | fd >= 0 ensures Lookup(After(log), dest) == fd <==> Routed(log, dest, fd) {
        LastWordSnoc(front, e, dest, fd);
      }
    }
  }

  /** After a switch is lost no lookup leads to it until a later update names it again. */
  lemma NoRouteToLostSwitch(log: seq<RouteEvent>, later: seq<RouteEvent>, fd: int, dest: uint32)
    requires fd >= 0
    requires forall e <- later :: !(e.Update? && e.nextFd == fd)
    ensures Lookup(After(log + [SwitchDown(fd)] + later), dest) != fd
  {
    var all := log + [SwitchDown(fd)] + later;
    LookupIsLastWord(all, dest);
    assert all[|log|] == SwitchDown(fd);
    forall i: nat | i < |all| ensures !LastWord(all, dest, fd, i) {
      if i > |log| {
        assert all[i] == later[i - |log| - 1];
      }
    }
    assert !Routed(all, dest, fd);
  }

  class RoutingTable {
    var routes: Routes

    constructor ()
      ensures routes == map[]
    {
      routes := map[];
    }

    method SetRoute(dest: uint32, nextSwitchFd: int)
      modifies this
      ensures routes == old(routes)[dest := nextSwitchFd]
    {
      routes := routes[dest := nextSwitchFd];
    }

    method RemoveRoute(dest: uint32)
      modifies this
      ensures routes == old(routes) - {dest}
    {
      routes := routes - {dest};
    }

    /** `remove_routes_for_switch`: visit each entry once, erasing on the way. */
    method RemoveRoutesForSwitch(switchFd: int)
      modifies this
      ensures routes == Without(old(routes), switchFd)
    {
      var todo := routes.Keys;
      while todo != {}
        invariant routes.Keys <= old(routes).Keys && todo <= routes.Keys
        invariant forall d <- routes :: routes[d] == old(routes)[d]
        invariant forall d <- old(routes) :: d in todo || old(routes)[d] != switchFd ==> d in routes
        invariant forall d <- routes :: d in todo || routes[d] != switchFd
        decreases |todo|
      {
        var d :| d in todo;
        todo := todo - {d};
        if routes[d] == switchFd {
          routes := routes - {d};
        }
      }
      SameMap(routes, Without(old(routes), switchFd));
    }
  }
}
