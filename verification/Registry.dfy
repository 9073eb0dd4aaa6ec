/** The registry as the server keeps it: tables and counters changed in place by scans. */
module Registry {
  import opened Bytes
  import opened RegistrySpec
  import opened RegistryInv
  import opened RegistryGc
  import opened RegistryShutdown
  import opened RegistryRuns

  class Xports {
    const xports: array<Option<Xprt>>
    const socks: array<Option<nat>>
    const poll: array<int>
    var ids: set<nat>
    var maxid: int
    var count: nat
    var maxPoll: nat
    var marks: set<nat>
    var markCount: nat
    ghost var owner: map<nat, nat>

    ghost function View(): (r: Reg)
      reads this, xports, socks, poll
    {
      Reg(xports[..], socks[..], ids, maxid, count, poll[..], maxPoll, marks, markCount, owner)
    }

    constructor (size: nat)
      ensures View() == Init(size)
      ensures fresh(xports) && fresh(socks) && fresh(poll)
    {
      xports := new Option<Xprt>[size](_ => None);
      socks := new Option<nat>[size](_ => None);
      poll := new int[size](_ => EMPTY);
      ids, maxid, count, maxPoll, marks, markCount, owner := {}, -1, 0, 0, {}, 0, map[];
    }

    /** The least free id, or None when the table is full. */
    method IdAlloc() returns (r: Option<nat>)
      requires Indexed(View())
      modifies `ids, `maxid, `count
      ensures var id := AllocId(old(View()));
              if id >= xports.Length then r.None?
              else r == Some(id) && View() == old(View()).(ids := old(ids) + {id}, count := old(count) + 1,
                                                          maxid := if id > old(maxid) then id else old(maxid))
    {
      var id := 0;
      if maxid == -1 {
        maxid := 0;
      } else {
        while id <= maxid && id in ids
          invariant 0 <= id <= maxid + 1
          invariant FreeFrom(ids, 0, maxid) == FreeFrom(ids, id, maxid)
        {
          id := id + 1;
        }
        if id > maxid {
          maxid := id;
        }
      }
      if id >= xports.Length {
        return None;
      }
      ids := ids + {id};
      count := count + 1;
      return Some(id);
    }

    /** The first empty poll slot gets the socket, else one more slot does. */
    method InitPollfd(sock: nat, ghost id: nat) returns (err: bool)
      requires maxPoll <= poll.Length && EmptyFrom(poll[..], 0, maxPoll) < poll.Length
      modifies `maxPoll, `owner, poll
      ensures !err && View() == TakeSlot(old(View()), EmptyFrom(old(poll[..]), 0, old(maxPoll)), sock, id)
    {
      var s := 0;
      while s < maxPoll && poll[s] != EMPTY
        invariant 0 <= s <= maxPoll
        invariant EmptyFrom(poll[..], 0, maxPoll) == EmptyFrom(poll[..], s, maxPoll)
      {
        s := s + 1;
      }
      owner := owner[s := id];
      if s < maxPoll {
        poll[s] := sock;
        return false;
      }
      if maxPoll > poll.Length {
        return true;
      }
      maxPoll := s + 1;
      poll[s] := sock;
      return false;
    }

    /** A socket can be taken if it has no transport or one that has returned. */
    method SocketAvailable(sock: nat) returns (ok: bool)
      requires sock < socks.Length
      requires socks[sock].Some? ==> socks[sock].value < xports.Length
      ensures ok == Available(View(), sock)
      ensures ok <==> match socks[sock]
                      case None => true
                      case Some(id) => xports[id].Some? && xports[id].value.returned
    {
      match socks[sock]
      case None => return true;
      case Some(id) => return xports[id].Some? && xports[id].value.returned;
    }

    /** Gives a transport an id and enters it in the table. */
    method Admit(parent: Option<nat>, sock: nat, port: nat) returns (r: Option<nat>)
      requires Indexed(View())
      modifies `ids, `maxid, `count, xports
      ensures var id := AllocId(old(View()));
              if id >= xports.Length then r.None?
              else r == Some(id) && View() == Enter(old(View()), Xprt(id, parent, 0, sock, port, false))
    {
      hide FreeFrom;
      r := IdAlloc();
      if r.Some? {
        xports[r.value] := Some(Xprt(r.value, parent, 0, sock, port, false));
      }
    }

    /** Makes a master the transport of its socket and has the socket polled. */
    method Attach(sock: nat, id: nat) returns (err: bool)
      requires sock < socks.Length && maxPoll <= poll.Length
      requires EmptyFrom(poll[..], 0, maxPoll) < poll.Length
      modifies `maxPoll, `owner, socks, poll
      ensures var r := old(View()).(socks := old(socks[..])[sock := Some(id)]);
              !err && View() == TakeSlot(r, EmptyFrom(r.poll, 0, r.maxPoll), sock, id)
    {
      hide EmptyFrom;
      socks[sock] := Some(id);
      err := InitPollfd(sock, id);
    }

    /** Registers a transport of its own; false stands for svc_die. */
    method Register(sock: nat, port: nat) returns (ok: bool)
      requires Inv(View()) && sock < socks.Length
      modifies this, xports, socks, poll
      ensures var o := RegisterMaster(old(View()), sock, port);
              ok == o.Running? && (ok ==> View() == o.r)
      ensures ok ==> Inv(View())
      ensures old(socks[sock]).Some? ==>
        old(socks[sock]).value < xports.Length && old(xports[socks[sock].value].Some?)
      ensures ok <==>
              && (exists id: nat :: id < xports.Length && old(xports[..])[id].None?)
              && (old(socks[sock]).Some? ==> old(xports[socks[sock].value].value.returned))
      ensures ok ==> exists id: nat ::
        && LeastFree(old(xports[..]), id)
        && xports[..] == old(xports[..])[id := Some(Xprt(id, None, 0, sock, port, false))]
        && socks[..] == old(socks[..])[sock := Some(id)]
    {
      ghost var r := View();
      RegisterMasterKeeps(r, sock, port);
      RegistrationRunsIff(r, sock, port);
      AllocFits(r);
      if AllocId(r) < Size(r) && Available(r, sock) {
        RegisteredMaster(r, sock, port);
      }
      if AllocId(r) < Size(r) {
        PollSlotInBounds(r);
      }
      assert r.socks[sock].Some? ==> Live(r.xports, r.socks[sock].value);
      hide Inv, Core, AllocId, EmptyFrom;
      var id := Admit(None, sock, port);
      if id.None? {
        return false;
      }
      var free := SocketAvailable(sock);
      if !free {
        return false;
      }
      var err := Attach(sock, id.value);
      return !err;
    }

    /** Adds to a reference count. */
    method Refer(p: nat, d: int)
      requires p < xports.Length && xports[p].Some?
      modifies xports
      ensures View() == AddRef(old(View()), p, d)
    {
      var x := xports[p].value;
      xports[p] := Some(x.(refcnt := x.refcnt + d));
    }

    /** Registers a clone of a live master. */
    method RegisterClone(p: nat) returns (ok: bool)
      requires Inv(View()) && Master(View().xports, p)
      modifies this, xports
      ensures var o := RegistrySpec.RegisterClone(old(View()), p);
              ok == o.Running? && (ok ==> View() == o.r)
      ensures ok ==> Inv(View())
      ensures ok <==> exists id: nat :: id < xports.Length && old(xports[..])[id].None?
      ensures ok ==> exists id: nat ::
        var x := old(xports[p]).value;
        && LeastFree(old(xports[..]), id)
        && xports[..] == old(xports[..])[id := Some(Xprt(id, Some(p), 0, x.sock, x.port, false))]
                                        [p := Some(x.(refcnt := x.refcnt + 1))]
    {
      ghost var r := View();
      RegisterCloneKeeps(r, p);
      AllocFits(r);
      if AllocId(r) < Size(r) {
        ClonedTable(r, p);
      }
      hide Inv, Core, AllocId;
      var x := xports[p].value;
      var id := Admit(Some(p), x.sock, x.port);
      if id.None? {
        return false;
      }
      assert xports[p].Some?;
      Refer(p, 1);
      return true;
    }

    /** Empties every poll slot of a socket. */
    method PollfdRemove(sock: nat)
      requires maxPoll <= poll.Length
      modifies poll
      ensures poll[..] == PollRemove(old(poll[..]), maxPoll, sock)
    {
      for s := 0 to maxPoll
        invariant forall i :: 0 <= i < s ==>
          poll[i] == if old(poll[i]) == sock then EMPTY else old(poll[i])
        invariant forall i :: s <= i < poll.Length ==> poll[i] == old(poll[i])
      {
        if poll[s] == sock {
          poll[s] := EMPTY;
        }
      }
    }

    /** Stops polling a socket and leaves it without a transport. */
    method Detach(sock: nat)
      requires sock < socks.Length && maxPoll <= poll.Length
      modifies `owner, socks, poll
      ensures View() == old(View()).(poll := PollRemove(old(poll[..]), maxPoll, sock),
                                     socks := old(socks[..])[sock := None],
                                     owner := DropOwners(old(owner), old(poll[..]), sock))
    {
      owner := DropOwners(owner, poll[..], sock);
      PollfdRemove(sock);
      socks[sock] := None;
    }

    /** Frees the id of a transport. */
    method UnregisterId(id: nat)
      requires id < xports.Length && count > 0
      modifies `ids, `count, xports
      ensures View() == Vacate(old(View()), id)
    {
      xports[id] := None;
      ids := ids - {id};
      count := count - 1;
    }

    /** Takes a transport out of the registry. */
    method Unregister(id: nat)
      requires Core(View()) && Live(View().xports, id)
      modifies this, xports, socks, poll
      ensures old(View()).count > 0 && RegistrySpec.Unregister(old(View()), id).Running?
      ensures View() == Without(old(View()), id)
      ensures Removable(old(View()).xports, id) ==> Core(View())
    {
      ghost var r := View();
      UnregisterRuns(r, id);
      if Removable(r.xports, id) {
        UnregisterKeeps(r, id);
      }
      assert xports[id].Some? && xports[id].value.sock < socks.Length;
      assert maxPoll <= poll.Length && |r.socks| == Size(r) && count > 0;
      hide Core, Removable, Removed;
      var x := xports[id].value;
      match x.parent {
        case None =>
          Detach(x.sock);
        case Some(p) =>
          Refer(p, -1);
      }
      UnregisterId(id);
    }

    /** Marks a transport for collection, once. */
    method GcMark(id: nat)
      requires Inv(View()) && Live(View().xports, id)
      modifies `marks, `markCount
      ensures Inv(View()) && View() == SetMark(old(View()), id)
      ensures marks == old(marks) + {id} && markCount == |marks|
    {
      MarkKeeps(View(), id);
      assert markCount == |marks|;
      hide Inv, Core;
      if id !in marks {
        marks := marks + {id};
        markCount := markCount + 1;
      }
    }

    /** Takes a mark off. */
    method GcUnmark(id: nat)
      requires markCount > 0
      modifies `marks, `markCount
      ensures View() == Unmark(old(View()), id)
    {
      marks := marks - {id};
      markCount := markCount - 1;
    }

    /** Looks at one id: removes the transport if it is marked and unreferenced. */
    method GcReapOne(id: nat) returns (n: nat)
      requires Inv(View()) && id < xports.Length
      modifies this, xports, socks, poll
      ensures View() == ReapOne(old(View()), id).r && n == ReapOne(old(View()), id).n
      ensures Inv(View())
    {
      ghost var r := View();
      ReapOneCases(r, id);
      assert Core(r);
      hide Inv, Core, Removable, ReapOne, Without, RegistrySpec.Unregister, Unmark;
      n := 0;
      if id !in marks || xports[id].None? {
        return;
      }
      var x := xports[id].value;
      if x.parent.Some? || x.refcnt == 0 {
        Unregister(id);
        n := 1;
      }
      GcUnmark(id);
    }

    /** The collection pass: every id, until no marks are left. */
    method GcReapAll() returns (n: nat)
      requires Inv(View())
      modifies this, xports, socks, poll
      ensures Inv(View()) && View() == ReapFrom(old(View()), 0).r
      ensures View().ids == old(View()).ids - DoomedSet(old(View())) && n == |DoomedSet(old(View()))|
      ensures marks == {} && markCount == 0
    {
      ghost var all := ReapFrom(View(), 0);
      ReapAllIsExact(View());
      assert maxid < xports.Length;
      hide Inv, Core, ReapOne, ReapFrom, DoomedSet;
      n := 0;
      var id := 0;
      while id <= maxid && markCount != 0
        invariant 0 <= id && Inv(View()) && maxid == old(maxid)
        invariant all.r == ReapFrom(View(), id).r && all.n == n + ReapFrom(View(), id).n
        decreases maxid - id
      {
        ReapFromCases(View(), id);
        var one := GcReapOne(id);
        n := n + one;
        id := id + 1;
      }
      ReapFromCases(View(), id);
    }

    /** Takes one transport down if the pass picks it. */
    method DestroyOne(phase: Phase, id: nat) returns (hit: bool)
      requires Core(View()) && (phase.ClonesOnly? || NoClones(View().xports)) && id < xports.Length
      modifies this, xports, socks, poll
      ensures Core(View()) && (phase.ClonesOnly? || NoClones(View().xports)) && maxid == old(maxid)
      ensures hit == PickedAt(phase, old(View()).xports, id)
      ensures var r := old(View());
              if hit then |r.socks| == Size(r) && r.count > 0 && RegistrySpec.Unregister(r, id).Running?
                          && View() == Without(r, id)
              else View() == r
    {
      ghost var r := View();
      hide Core, NoClones, Gone, Removable;
      if xports[id].Some? && Picked(phase, xports[id].value) {
        PickedGoes(r, phase, id);
        PickedIsRemovable(r, phase, id);
        Unregister(id);
        return true;
      }
      return false;
    }

    /** One pass of the shutdown. */
    method DestroyPass(phase: Phase) returns (order: seq<nat>)
      requires Core(View()) && (phase.ClonesOnly? || NoClones(View().xports))
      modifies this, xports, socks, poll
      ensures Core(View())
      ensures Destroyed(View(), order) == DestroyFrom(old(View()), phase, 0)
    {
      ghost var all := DestroyFrom(View(), phase, 0);
      assert maxid < xports.Length;
      hide Core, NoClones, PickedAt, RegistrySpec.Unregister, Without, DestroyFrom, Onto;
      OntoLaws([], 0, all);
      order := [];
      var id := 0;
      while id <= maxid
        invariant 0 <= id && Core(View()) && (phase.ClonesOnly? || NoClones(View().xports))
        invariant maxid == old(maxid)
        invariant all == Onto(order, DestroyFrom(View(), phase, id))
        decreases maxid - id
      {
        DestroyFromCases(View(), phase, id);
        var hit := DestroyOne(phase, id);
        if hit {
          OntoLaws(order, id, DestroyFrom(View(), phase, id + 1));
          order := order + [id];
        }
        id := id + 1;
      }
      DestroyFromCases(View(), phase, id);
      OntoLaws(order, 0, Destroyed(View(), []));
    }

    /** Takes every transport down: clones, then connections, then the rest. */
    method DestroyAll() returns (order: seq<nat>)
      requires Core(View())
      modifies this, xports, socks, poll
      ensures Vacant(View())
      ensures Destroyed(View(), order) == RegistryShutdown.DestroyAll(old(View()))
      ensures forall id: nat :: id in order <==> Live(old(View()).xports, id)
      ensures forall i, j :: 0 <= i < j < |order| ==>
        var xs, x, y := old(View()).xports, order[i], order[j];
        && x != y && (Master(xs, x) ==> Master(xs, y))
        && (Master(xs, x) && xs[x].value.port != 0 ==> xs[y].value.port != 0)
    {
      ghost var r := View();
      ShutdownIsExact(r);
      DestroyFromIsExact(r, ClonesOnly, 0);
      hide Core, Vacant, Live;
      var a := DestroyPass(ClonesOnly);
      AfterClones(r, Destroyed(View(), a));
      ghost var r1 := View();
      DestroyFromIsExact(r1, Portless, 0);
      var b := DestroyPass(Portless);
      NoClonesStays(r1.xports, View().xports);
      var c := DestroyPass(Everything);
      order := a + b + c;
    }

    /** Sets or clears the return bit of a transport. */
    method SetReturned(id: nat, b: bool)
      requires Inv(View()) && Live(View().xports, id)
      modifies xports
      ensures Inv(View()) && View() == RegistryRuns.SetReturned(old(View()), id, b)
      ensures xports[..] == old(xports[..])[id := Some(old(xports[id]).value.(returned := b))]
    {
      ReturnedKeeps(View(), id, b);
      hide Inv;
      assert xports[id].Some?;
      xports[id] := Some(xports[id].value.(returned := b));
    }

    /** A worker's return: a clone is marked for collection as well. */
    method Return(id: nat)
      requires Inv(View()) && Live(View().xports, id)
      modifies `marks, `markCount, xports
      ensures View() == Next(old(View()), Step.Return(id)).r
      ensures xports[..] == old(xports[..])[id := Some(old(xports[id]).value.(returned := true))]
      ensures marks == old(marks) + if old(xports[id]).value.parent.Some? then {id} else {}
    {
      NextCases(View(), Step.Return(id));
      hide Inv, Next;
      assert xports[id].Some?;
      SetReturned(id, true);
      if xports[id].value.parent.Some? {
        GcMark(id);
      }
    }

    /** One step of a run; false stands for svc_die. */
    method Take(step: Step) returns (ok: bool)
      requires Inv(View())
      modifies this, xports, socks, poll
      ensures var o := Next(old(View()), step); ok == o.Running? && (ok ==> View() == o.r && Inv(View()))
    {
      ghost var r := View();
      NextCases(r, step);
      hide Inv, Next, RegisterMaster, RegistrySpec.RegisterClone, ReapFrom, DoomedSet;
      ok := true;
      match step {
        case Open(sock, port) =>
          if sock < socks.Length {
            ok := Register(sock, port);
          }
        case Clone(sock) =>
          if sock < socks.Length && socks[sock].Some? {
            ok := RegisterClone(socks[sock].value);
          }
        case Return(id) =>
          if id < xports.Length && xports[id].Some? {
            Return(id);
          }
        case Resume(id) =>
          if id < xports.Length && xports[id].Some? {
            SetReturned(id, false);
          }
        case Mark(id) =>
          if id < xports.Length && xports[id].Some? {
            GcMark(id);
          }
        case Reap =>
          var n := GcReapAll();
      }
    }

    /** A whole run does to the tables what it does to the registry as a value. */
    method Perform(steps: seq<Step>) returns (ok: bool)
      requires Inv(View())
      modifies this, xports, socks, poll
      ensures var o := Run(old(View()), steps); ok == o.Running? && (ok ==> View() == o.r && Inv(View()))
    {
      hide Inv, Next;
      var i := 0;
      while i < |steps|
        invariant 0 <= i <= |steps| && Inv(View())
        invariant Run(View(), steps[i..]) == Run(old(View()), steps)
      {
        assert steps[i..][1..] == steps[i + 1..];
        ok := Take(steps[i]);
        if !ok {
          return;
        }
        i := i + 1;
      }
      return true;
    }
  }
}
