// Connections by descriptor over a pool: src/connsvr/conn_mgr_module and the
// accepting side of src/connsvr/event_module.
module ConnStates {
  import opened FreeChains

  datatype Conn = Conn(connFd: int, playerIdx: int)

  // fds is conn_map_: descriptor to pool unit.
  datatype ConnState = ConnState(conns: map<int, Conn>, free: seq<int>, total: nat, fds: map<int, int>)

  datatype Created = Unit(unit: int) | NullDereference

  // ----- operations -----

  // CreateConn, and the descriptor entered by its caller.
  function Admit(s: ConnState, fd: int): ConnState
    requires s.free != []
  {
    ConnState(s.conns[s.free[0] := Conn(fd, 0)], s.free[1..], s.total, s.fds[fd := s.free[0]])
  }

  // DoTcpAccept: full means no accept; a negative descriptor is a failed one.
  function Accept(s: ConnState, fd: int): ConnState {
    if |s.fds| >= s.total || fd < 0 || s.free == [] then s else Admit(s, fd)
  }

  function Release(s: ConnState, fd: int): ConnState {
    if fd in s.fds && s.fds[fd] in s.conns && s.conns[s.fds[fd]].connFd == fd then
      ConnState(s.conns - {s.fds[fd]}, [s.fds[fd]] + s.free, s.total, s.fds - {fd})
    else s
  }

  // ----- invariant -----

  ghost predicate Leads(s: ConnState, fd: int)
    requires fd in s.fds
  {
    s.fds[fd] in s.conns && s.conns[s.fds[fd]].connFd == fd
  }

  ghost predicate Reached(s: ConnState, unit: int)
    requires unit in s.conns
  {
    s.conns[unit].connFd in s.fds && s.fds[s.conns[unit].connFd] == unit
  }

  // Descriptors and allocated units match one to one, and allocated and free
  // units make up the pool.
  ghost predicate Sound(s: ConnState) {
    && (forall fd | fd in s.fds :: Leads(s, fd))
    && (forall unit | unit in s.conns :: Reached(s, unit))
    && Pool(s.conns.Keys, s.free, s.total)
    && |s.fds| + |s.free| == s.total
  }

  lemma FdsInjective(s: ConnState, a: int, b: int)
    requires Sound(s) && a in s.fds && b in s.fds && s.fds[a] == s.fds[b]
    ensures a == b
  {
  }

  // While the map is smaller than the pool a unit is free, so a connection
  // that passes accept's guard is never created on NULL.
  lemma GuardLeavesUnit(s: ConnState)
    requires Sound(s)
    ensures s.free != [] <==> |s.fds| < s.total
  {
  }

  lemma FirstFree(free: seq<int>)
    requires Distinct(free) && free != []
    ensures Distinct(free[1..]) && free[0] !in free[1..] && free[0] in free
    ensures forall x | x in free[1..] :: x in free
  {
  }

  // Admitting a descriptor keeps the match exactly if it is not in the map:
  // otherwise the unit it had stays allocated with nothing leading to it.
  lemma AdmitSound(s: ConnState, fd: int)
    requires Sound(s) && s.free != []
    ensures Sound(Admit(s, fd)) <==> fd !in s.fds
  {
    var s', unit := Admit(s, fd), s.free[0];
    FirstFree(s.free);
    if fd !in s.fds {
      forall f | f in s'.fds ensures Leads(s', f) {
        if f != fd { assert Leads(s, f); }
      }
      forall u | u in s'.conns ensures Reached(s', u) {
        if u != unit { assert Reached(s, u); }
      }
    } else {
      assert Leads(s, fd);
      assert s'.fds.Keys == s.fds.Keys;
      assert |s'.fds| == |s'.fds.Keys|;
    }
  }

  lemma AcceptSound(s: ConnState, fd: int)
    requires Sound(s) && fd !in s.fds
    ensures Sound(Accept(s, fd))
    ensures fd >= 0 ==> (fd in Accept(s, fd).fds <==> |s.fds| < s.total)
  {
    GuardLeavesUnit(s);
    if |s.fds| < s.total {
      AdmitSound(s, fd);
    }
  }

  lemma ReleaseSound(s: ConnState, fd: int)
    requires Sound(s)
    ensures Sound(Release(s, fd)) && Release(s, fd).fds == s.fds - {fd}
  {
  }

  // s' is s and a new connection on a unit that was free, with its descriptor
  // and no player.
  ghost predicate AddsOne(s: ConnState, s': ConnState, fd: int) {
    && fd in s'.fds && s'.fds[fd] !in s.conns
    && s'.fds == s.fds[fd := s'.fds[fd]]
    && s'.conns == s.conns[s'.fds[fd] := Conn(fd, 0)]
    && s'.total == s.total
  }

  lemma AdmitAddsOne(s: ConnState, fd: int)
    requires s.free != [] && s.free[0] !in s.conns
    ensures AddsOne(s, Admit(s, fd), fd)
  {
  }

  lemma FirstNotTaken(s: ConnState)
    requires Pool(s.conns.Keys, s.free, s.total) && s.free != []
    ensures s.free[0] !in s.conns
  {
    TakeFromPool(s.conns.Keys, s.free, s.total);
  }

  // An accept adds one connection and changes nothing else, and nothing at all
  // if there is no descriptor or no unit is free.
  lemma AcceptMeans(s: ConnState, fd: int)
    requires Sound(s)
    ensures if fd < 0 || |s.fds| >= s.total then Accept(s, fd) == s else AddsOne(s, Accept(s, fd), fd)
  {
    GuardLeavesUnit(s);
    if fd >= 0 && |s.fds| < s.total {
      FirstNotTaken(s);
      AdmitAddsOne(s, fd);
    }
  }

  // A release takes away one connection and no other.
  lemma ReleaseMeans(s: ConnState, fd: int)
    requires Sound(s)
    ensures var s' := Release(s, fd);
            if fd !in s.fds then s' == s
            else s'.fds == s.fds - {fd} && s'.conns == s.conns - {s.fds[fd]}
  {
    if fd in s.fds { assert Leads(s, fd); }
  }

  // A released descriptor's unit is the next one to be handed out.
  lemma ReleasedUnitIsReused(s: ConnState, fd: int, next: int)
    requires Sound(s) && fd in s.fds && next >= 0 && next !in Release(s, fd).fds
    ensures next in Accept(Release(s, fd), next).fds && Accept(Release(s, fd), next).fds[next] == s.fds[fd]
  {
  }

  // ----- runs -----

  // The kernel does not hand out a descriptor that is still open.
  datatype Event = Accepted(fd: int) | Released(fd: int)

  function Next(s: ConnState, e: Event): ConnState {
    match e
    case Accepted(fd) => Accept(s, fd)
    case Released(fd) => Release(s, fd)
  }

  ghost predicate IsRun(s: ConnState, events: seq<Event>)
    decreases |events|
  {
    events == [] ||
    ((events[0].Accepted? ==> events[0].fd !in s.fds) && IsRun(Next(s, events[0]), events[1..]))
  }

  function After(s: ConnState, events: seq<Event>): ConnState
    decreases |events|
  {
    if events == [] then s else After(Next(s, events[0]), events[1..])
  }

  lemma {:induction false} SoundAlways(s: ConnState, events: seq<Event>)
    requires Sound(s) && IsRun(s, events)
    ensures Sound(After(s, events))
    decreases |events|
  {
    if events != [] {
      match events[0] {
        case Accepted(fd) => AcceptSound(s, fd);
        case Released(fd) => ReleaseSound(s, fd);
      }
      SoundAlways(Next(s, events[0]), events[1..]);
    }
  }

  function Empty(total: nat): ConnState {
    ConnState(map[], Range(1, total + 1), total, map[])
  }

  lemma EmptySound(total: nat)
    ensures Sound(Empty(total))
  {
    EmptyPool(total);
  }
}

module ConnMgrModules {
  import opened ShmPools
  import opened ConnStates

  class ConnMgrModule {
    var connPool: ShmPool<Conn>
    var connMap: map<int, int>

    ghost predicate Valid()
      reads this, connPool, connPool.pos, connPool.mem
    {
      connPool.Valid() && Sound(Abstract())
    }

    ghost function Abstract(): ConnState
      reads this, connPool
    {
      ConnState(connPool.units, connPool.free, connPool.totalUnitCount, connMap)
    }

    constructor (poolSize: nat)
      ensures Valid() && Abstract() == Empty(poolSize)
    {
      var pool := new ShmPool<Conn>(poolSize);
      connPool, connMap := pool, map[];
      new;
      EmptySound(poolSize);
    }

    // Initialising the new connection is a null dereference when the pool is
    // exhausted.
    method CreateConn(fd: int) returns (r: Created)
      requires connPool.Valid()
      modifies `connMap
      modifies connPool`freeMemPos, connPool`validUnitCount, connPool`free, connPool`units, connPool.pos, connPool.mem
      ensures connPool.Valid()
      ensures r == if old(connPool.free) == [] then NullDereference else Unit(old(connPool.free)[0])
      ensures r.NullDereference? ==> Abstract() == old(Abstract())
      ensures r.Unit? ==>
                && connPool.Allocated(r.unit)
                && Abstract() == ConnState(old(connPool.units)[r.unit := Conn(0, 0)], old(connPool.free)[1..],
                                           old(connPool.totalUnitCount), old(connMap)[fd := r.unit])
    {
      var unit := connPool.AllocInit(Conn(0, 0));
      if unit == 0 {
        return NullDereference;
      }
      connMap := connMap[fd := unit];
      return Unit(unit);
    }

    // A new connection with its descriptor entered.
    method OpenConn(fd: int)
      requires connPool.Valid() && connPool.free != []
      modifies `connMap
      modifies connPool`freeMemPos, connPool`validUnitCount, connPool`free, connPool`units, connPool.pos, connPool.mem
      ensures connPool.Valid() && Abstract() == Admit(old(Abstract()), fd)
    {
      ghost var units := connPool.units;
      var conn := CreateConn(fd);
      Overwritten(units, conn.unit, Conn(0, 0), Conn(fd, 0));
      connPool.Write(conn.unit, Conn(fd, 0));
    }

    // DoTcpAccept, with the kernel's answer as a parameter. It never creates a
    // connection on NULL.
    method DoTcpAccept(fd: int)
      requires Valid() && fd !in connMap
      modifies `connMap
      modifies connPool`freeMemPos, connPool`validUnitCount, connPool`free, connPool`units, connPool.pos, connPool.mem
      ensures Valid() && Abstract() == Accept(old(Abstract()), fd)
    {
      AcceptSound(Abstract(), fd);
      GuardLeavesUnit(Abstract());
      if |connMap| >= connPool.totalUnitCount || fd < 0 {
        return;
      }
      OpenConn(fd);
    }

    method GetConn(fd: int) returns (unit: int)
      ensures unit == if fd in connMap then connMap[fd] else 0
    {
      if fd !in connMap {
        return 0;
      }
      return connMap[fd];
    }

    method ReleaseConn(fd: int)
      requires Valid()
      modifies `connMap, connPool`freeMemPos, connPool`validUnitCount, connPool`free, connPool`units, connPool.pos
      ensures Valid() && Abstract() == Release(old(Abstract()), fd)
    {
      ReleaseSound(Abstract(), fd);
      if fd !in connMap {
        return;
      }
      assert Leads(Abstract(), fd);
      var unit := connMap[fd];
      assert connPool.Allocated(unit);
      var conn := connPool.Read(unit);
      if conn.connFd == fd {
        var ok := connPool.Release(unit);
        connMap := connMap - {fd};
      }
    }
  }
}
