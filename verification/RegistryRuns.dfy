/** Whole runs of the server, and the self-check over them. */
module RegistryRuns {
  import opened Bytes
  import opened RegistrySpec
  import opened RegistryInv
  import opened RegistryGc
  import opened RegistryShutdown
  import opened RegistrySockets

  /** What can happen to the registry of a multi-threaded server, one locked region at a time. */
  datatype Step =
    | Open(sock: nat, port: nat)    // a transport of its own is registered on a socket
    | Clone(sock: nat)              // a request on a socket is given a clone of its master
    | Return(id: nat)               // a worker is done with a transport
    | Resume(id: nat)               // a transport that has returned is used again
    | Mark(id: nat)                 // a transport is found dead
    | Reap                          // a garbage collection pass

  function SetReturned(r: Reg, id: nat, b: bool): Reg
    requires Live(r.xports, id)
  {
    r.(xports := r.xports[id := Some(r.xports[id].value.(returned := b))])
  }

  function SetMark(r: Reg, id: nat): Reg {
    if id in r.marks then r else r.(marks := r.marks + {id}, markCount := r.markCount + 1)
  }

  lemma ReturnedKeeps(r: Reg, id: nat, b: bool)
    requires Inv(r) && Live(r.xports, id)
    ensures Inv(SetReturned(r, id, b))
  {
    var xs, ys := r.xports, SetReturned(r, id, b).xports;
    assert forall j: nat :: (Live(ys, j) <==> Live(xs, j)) && (Master(ys, j) <==> Master(xs, j));
    forall c: nat, p: nat ensures CloneOf(ys, c, p) <==> CloneOf(xs, c, p) {
    }
    forall q: nat ensures Clones(ys, q) == Clones(xs, q) {
    }
    hide Clones, CloneOf;
    assert Indexed(SetReturned(r, id, b)) by { hide Parented, Counted, Socketed, Polled; }
    assert Parented(ys) by { hide Indexed, Counted, Socketed, Polled; }
    assert Counted(ys) by { hide Indexed, Parented, Socketed, Polled; }
    assert Socketed(ys, r.socks) by { hide Indexed, Counted, Parented, Polled; }
    assert Polled(ys, r.poll, r.maxPoll, r.owner) by { hide Indexed, Counted, Parented, Socketed; }
    hide Indexed, Parented, Counted, Socketed, Polled;
  }

  lemma MarkKeeps(r: Reg, id: nat)
    requires Inv(r) && Live(r.xports, id)
    ensures Inv(SetMark(r, id))
  {
    assert id in r.ids;
    assert Indexed(SetMark(r, id));
    hide Indexed, Parented, Counted, Socketed, Polled;
  }

  /** One step.  A step whose object is not there does nothing. */
  function Next(r: Reg, step: Step): (o: Outcome)
    requires Inv(r)
    ensures o.Running? ==> Inv(o.r) && Size(o.r) == Size(r)
    ensures !o.Running? ==> o.Died?
  {
    match step
    case Open(sock, port) =>
      if sock < Size(r) then RegisterMasterKeeps(r, sock, port); RegisterMaster(r, sock, port)
      else Running(r)
    case Clone(sock) =>
      if sock < Size(r) && r.socks[sock].Some? then
        var p := r.socks[sock].value;
        RegisterCloneKeeps(r, p);
        RegisterClone(r, p)
      else Running(r)
    case Return(id) =>
      if Live(r.xports, id) then
        ReturnedKeeps(r, id, true);
        var r1 := SetReturned(r, id, true);
        MarkKeeps(r1, id);
        Running(if Master(r.xports, id) then r1 else SetMark(r1, id))
      else Running(r)
    case Resume(id) =>
      if Live(r.xports, id) then ReturnedKeeps(r, id, false); Running(SetReturned(r, id, false))
      else Running(r)
    case Mark(id) =>
      if Live(r.xports, id) then MarkKeeps(r, id); Running(SetMark(r, id))
      else Running(r)
    case Reap => Running(ReapFrom(r, 0).r)
  }

  /** The cases of a step, with what each looks up. */
  lemma NextCases(r: Reg, step: Step)
    requires Inv(r)
    ensures |r.socks| == Size(r)
    ensures match step
            case Open(sock, port) =>
              Next(r, step) == if sock < Size(r) then RegisterMaster(r, sock, port) else Running(r)
            case Clone(sock) =>
              if sock < Size(r) && r.socks[sock].Some?
              then Master(r.xports, r.socks[sock].value)
                   && Next(r, step) == RegisterClone(r, r.socks[sock].value)
              else Next(r, step) == Running(r)
            case Return(id) =>
              if !Live(r.xports, id) then Next(r, step) == Running(r)
              else
                var r1 := SetReturned(r, id, true);
                Next(r, step) == Running(if Master(r.xports, id) then r1 else SetMark(r1, id))
            case Resume(id) =>
              Next(r, step) == Running(if Live(r.xports, id) then SetReturned(r, id, false) else r)
            case Mark(id) => Next(r, step) == Running(if Live(r.xports, id) then SetMark(r, id) else r)
            case Reap => Next(r, step) == Running(ReapFrom(r, 0).r)
  {
    SockEntries(r);
    hide Inv, RegisterMaster, RegisterClone, ReapFrom, SetReturned, SetMark;
  }

  lemma SockEntries(r: Reg)
    requires Core(r)
    ensures |r.socks| == |r.poll| == Size(r) && r.maxPoll <= Size(r)
    ensures forall k :: 0 <= k < |r.socks| && r.socks[k].Some? ==> Master(r.xports, r.socks[k].value)
  {
  }

  function Run(r: Reg, steps: seq<Step>): (o: Outcome)
    requires Inv(r)
    decreases steps
  {
    if steps == [] then Running(r)
    else
      var o := Next(r, steps[0]);
      if o.Running? then Run(o.r, steps[1..]) else o
  }

  /**
   * In every run, however long: the invariant holds in every state reached, no poll slot
   * past the end is written and no vacated slot is followed.  A run ends only by svc_die.
   */
  lemma {:induction false} RunsAreSafe(r: Reg, steps: seq<Step>)
    requires Inv(r)
    ensures var o := Run(r, steps);
            !o.Overrun? && !o.Dangling? && (o.Running? ==> Inv(o.r) && Size(o.r) == Size(r))
    decreases steps
  {
    hide Inv, Next;
    if steps != [] {
      var o := Next(r, steps[0]);
      if o.Running? {
        RunsAreSafe(o.r, steps[1..]);
      }
    }
  }

  /**
   * In every state a server reaches, a live clone has a live master for a parent, and a
   * reference count is the number of clones that name the transport.
   */
  lemma ParentsOutliveClones(size: nat, steps: seq<Step>, c: nat, p: nat)
    requires var o := Run(Init(size), steps); o.Running? && CloneOf(o.r.xports, c, p)
    ensures var r := Run(Init(size), steps).r;
            && Master(r.xports, p) && c != p && r.xports[p].value.refcnt == |Clones(r.xports, p)|
            && r.xports[p].value.refcnt > 0 && !Unreferenced(r.xports, p)
  {
    RunsAreSafe(Init(size), steps);
    var xs := Run(Init(size), steps).r.xports;
    assert Master(xs, p);
    assert c in Clones(xs, p);
  }

  /** Whatever a server has been through, shutting down leaves nothing registered. */
  lemma ShutdownAfterAnyRun(size: nat, steps: seq<Step>)
    requires Run(Init(size), steps).Running?
    ensures Core(Run(Init(size), steps).r) && Vacant(DestroyAll(Run(Init(size), steps).r).r)
  {
    RunsAreSafe(Init(size), steps);
    ShutdownIsExact(Run(Init(size), steps).r);
  }

  // -- the self-check over a run ----------------------------------------------

  /** The step is a pass that takes a socket away from a master it leaves. */
  ghost predicate Disturbs(r: Reg, step: Step) {
    step.Reap? && !Undisturbed(r)
  }

  /** A step keeps every master reachable, and polled, exactly when it is not such a pass. */
  lemma StepServesIff(r: Reg, step: Step)
    requires Inv(r) && Served(r) && Next(r, step).Running?
    ensures MastersReachable(Next(r, step).r) <==> !Disturbs(r, step)
    ensures MastersPolled(Next(r, step).r) <==> !Disturbs(r, step)
  {
    hide Inv, Next, MastersReachable, MastersPolled, Undisturbed;
    match step
    case Open(sock, port) => OpenStepServes(r, sock, port);
    case Clone(sock) => CloneStepServes(r, sock);
    case Reap => ReapStepServesIff(r);
    case _ => QuietServes(r, step);
  }

  lemma OpenStepServes(r: Reg, sock: nat, port: nat)
    requires Inv(r) && Served(r) && Next(r, Open(sock, port)).Running?
    ensures Served(Next(r, Open(sock, port)).r)
  {
    SockEntries(r);
    hide Inv, RegisterMaster, AllocId, Available, Served;
    if sock < Size(r) {
      RegisterMasterKeeps(r, sock, port);
      OpenServes(r, sock, port);
    }
  }

  lemma CloneStepServes(r: Reg, sock: nat)
    requires Inv(r) && Served(r) && Next(r, Clone(sock)).Running?
    ensures Served(Next(r, Clone(sock)).r) && SameMasters(r.xports, Next(r, Clone(sock)).r.xports)
  {
    SockEntries(r);
    hide Inv, RegisterClone, AllocId, Served;
    if sock < Size(r) && r.socks[sock].Some? {
      RegisterCloneKeeps(r, r.socks[sock].value);
      CloneServes(r, r.socks[sock].value);
    }
  }

  lemma ReapStepServesIff(r: Reg)
    requires Inv(r) && Served(r)
    ensures Next(r, Reap).Running?
    ensures MastersReachable(Next(r, Reap).r) <==> Undisturbed(r)
    ensures MastersPolled(Next(r, Reap).r) <==> Undisturbed(r)
  {
    hide Inv, ReapFrom, MastersReachable, MastersPolled, Undisturbed;
    PassDisturbsIff(r);
  }

  /** Returning, resuming and marking touch no socket. */
  lemma QuietServes(r: Reg, step: Step)
    requires Inv(r) && Served(r) && (step.Return? || step.Resume? || step.Mark?)
    ensures Next(r, step).Running? && Served(Next(r, step).r)
    ensures SameMasters(r.xports, Next(r, step).r.xports)
  {
    hide Inv, Served;
    assert SameMasters(r.xports, Next(r, step).r.xports);
    SameServed(r, Next(r, step).r);
  }

  // -- whole runs -------------------------------------------------------------

  ghost predicate NeverDisturbs(r: Reg, steps: seq<Step>)
    requires Inv(r)
    decreases steps
  {
    steps == [] ||
    (!Disturbs(r, steps[0]) &&
     var o := Next(r, steps[0]); o.Running? ==> NeverDisturbs(o.r, steps[1..]))
  }

  /** The self-check passes in every state of a run. */
  ghost predicate AlwaysPasses(r: Reg, steps: seq<Step>)
    requires Inv(r)
    decreases steps
  {
    CheckXports(r) &&
    (steps == [] || var o := Next(r, steps[0]); o.Running? ==> AlwaysPasses(o.r, steps[1..]))
  }

  /** Every master is polled in every state of a run. */
  ghost predicate AlwaysPolled(r: Reg, steps: seq<Step>)
    requires Inv(r)
    decreases steps
  {
    MastersPolled(r) &&
    (steps == [] || var o := Next(r, steps[0]); o.Running? ==> AlwaysPolled(o.r, steps[1..]))
  }

  /**
   * Over any run: the self-check passes in every state, and every master is polled in
   * every state, exactly when no pass removes a master whose socket another one it
   * leaves has taken over.
   */
  lemma {:induction false} RunsPassIff(r: Reg, steps: seq<Step>)
    requires Inv(r) && Served(r)
    ensures AlwaysPasses(r, steps) <==> NeverDisturbs(r, steps)
    ensures AlwaysPolled(r, steps) <==> NeverDisturbs(r, steps)
    decreases steps
  {
    hide Inv, Next, CheckXports, Disturbs, MastersReachable, MastersPolled;
    CheckIsReachability(r);
    if steps != [] {
      var o := Next(r, steps[0]);
      OnlyReapsDisturb(r, steps[0]);
      if o.Running? {
        StepServesIff(r, steps[0]);
        CheckIsReachability(o.r);
        if !Disturbs(r, steps[0]) {
          RunsPassIff(o.r, steps[1..]);
        }
      }
    }
  }

  lemma OnlyReapsDisturb(r: Reg, step: Step)
    requires Inv(r)
    ensures Disturbs(r, step) ==> Next(r, step).Running?
  {
    hide Inv, Undisturbed;
  }

  /** A server from its start. */
  lemma ServerPassesIff(size: nat, steps: seq<Step>)
    ensures AlwaysPasses(Init(size), steps) <==> NeverDisturbs(Init(size), steps)
    ensures AlwaysPolled(Init(size), steps) <==> NeverDisturbs(Init(size), steps)
  {
    RunsPassIff(Init(size), steps);
  }

  /** No two masters are on the same socket. */
  ghost predicate Alone(xs: Table) {
    forall i: nat, j: nat :: Master(xs, i) && Master(xs, j) && i != j ==> xs[i].value.sock != xs[j].value.sock
  }

  /** The branch of registration that takes a socket over from a transport that has returned. */
  predicate Reuses(r: Reg, step: Step) {
    step.Open? && step.sock < |r.socks| && r.socks[step.sock].Some?
  }

  /** Opening a socket leaves every master alone on its socket exactly when the socket was not taken over. */
  lemma OpenKeepsAloneIff(r: Reg, sock: nat, port: nat)
    requires Inv(r) && Served(r) && Alone(r.xports)
    requires sock < Size(r) && AllocId(r) < Size(r) && Available(r, sock)
    ensures RegisterMaster(r, sock, port).Running?
    ensures Alone(RegisterMaster(r, sock, port).r.xports) <==> !Reuses(r, Open(sock, port))
  {
    SockEntries(r);
    AllocIsLeastFree(r);
    assert !Live(r.xports, AllocId(r));
    RegisteredMaster(r, sock, port);
    if r.socks[sock].Some? {
      assert r.xports[r.socks[sock].value].value.sock == sock;
    }
    hide Inv, Core, RegisterMaster, AllocId, MastersPolled;
    OpenedAlone(r, Xprt(AllocId(r), None, 0, sock, port, false));
  }

  lemma OpenedAlone(r: Reg, x: Xprt)
    requires MastersReachable(r) && Alone(r.xports) && x.parent.None?
    requires x.id < |r.xports| && r.xports[x.id].None? && x.sock < |r.socks|
    requires r.socks[x.sock].Some? ==>
      Master(r.xports, r.socks[x.sock].value) && r.xports[r.socks[x.sock].value].value.sock == x.sock
    ensures Alone(r.xports[x.id := Some(x)]) <==> r.socks[x.sock].None?
  {
    var ys := r.xports[x.id := Some(x)];
    assert Master(ys, x.id);
    if r.socks[x.sock].Some? {
      assert Master(ys, r.socks[x.sock].value);
    } else {
      assert forall m: nat :: Master(ys, m) && m != x.id ==> Master(r.xports, m) && ys[m] == r.xports[m];
    }
  }

  lemma SameAlone(xs: Table, ys: Table)
    requires Alone(xs) && SameMasters(xs, ys)
    ensures Alone(ys)
  {
  }

  lemma StepKeepsAlone(r: Reg, step: Step)
    requires Inv(r) && Served(r) && Alone(r.xports) && Next(r, step).Running? && !Reuses(r, step)
    ensures Alone(Next(r, step).r.xports) && !Disturbs(r, step)
  {
    hide Inv, Served, Alone;
    match step
    case Open(sock, port) => OpenStepKeepsAlone(r, sock, port);
    case Clone(sock) =>
      CloneStepServes(r, sock);
      SameAlone(r.xports, Next(r, step).r.xports);
    case Reap => ReapKeepsAlone(r);
    case _ =>
      QuietServes(r, step);
      SameAlone(r.xports, Next(r, step).r.xports);
  }

  lemma OpenStepKeepsAlone(r: Reg, sock: nat, port: nat)
    requires Inv(r) && Served(r) && Alone(r.xports)
    requires Next(r, Open(sock, port)).Running? && !Reuses(r, Open(sock, port))
    ensures Alone(Next(r, Open(sock, port)).r.xports)
  {
    SockEntries(r);
    hide Inv, RegisterMaster, AllocId, Available, Served, Alone;
    if sock < Size(r) {
      RegisterMasterKeeps(r, sock, port);
      OpenKeepsAloneIff(r, sock, port);
    }
  }

  lemma ReapKeepsAlone(r: Reg)
    requires Inv(r) && Alone(r.xports)
    ensures Alone(ReapFrom(r, 0).r.xports) && Undisturbed(r)
  {
    ReapAllIsExact(r);
    hide Inv, ReapFrom, DoomedSet;
    SameAlone(r.xports, ReapFrom(r, 0).r.xports);
  }

  predicate NeverReuses(r: Reg, steps: seq<Step>)
    requires Inv(r)
    decreases steps
  {
    steps == [] ||
    (!Reuses(r, steps[0]) &&
     var o := Next(r, steps[0]); o.Running? ==> NeverReuses(o.r, steps[1..]))
  }

  /** A run that never takes a socket over disturbs nothing, so the self-check passes throughout. */
  lemma {:induction false} WithoutReuseNothingIsDisturbed(r: Reg, steps: seq<Step>)
    requires Inv(r) && Served(r) && Alone(r.xports) && NeverReuses(r, steps)
    ensures NeverDisturbs(r, steps)
    decreases steps
  {
    if steps != [] {
      var o := Next(r, steps[0]);
      if o.Running? {
        StepKeepsAlone(r, steps[0]);
        StepServesIff(r, steps[0]);
        hide Inv, Next, MastersReachable, MastersPolled, Alone, Disturbs, Reuses;
        WithoutReuseNothingIsDisturbed(o.r, steps[1..]);
      }
    }
  }

  lemma RunStep(r: Reg, step: Step, rest: seq<Step>)
    requires Inv(r)
    ensures var o := Next(r, step);
            Run(r, [step] + rest) == if o.Running? then Run(o.r, rest) else o
  {
    hide Inv, Next;
    assert ([step] + rest)[1..] == rest;
  }

  /** A registry with one transport, on socket 1. */
  lemma Opened() returns (r: Reg)
    ensures Next(Init(4), Open(1, 9)) == Running(r)
    ensures Inv(r) && Size(r) == |r.socks| == 4 && r.ids == {0} && r.marks == {}
    ensures r.xports[0] == Some(Xprt(0, None, 0, 1, 9, false)) && r.socks[1] == Some(0)
  {
    var r0 := Init(4);
    RegisterMasterKeeps(r0, 1, 9);
    AllocIsLeastFree(r0);
    RegisteredMaster(r0, 1, 9);
    r := RegisterMaster(r0, 1, 9).r;
    hide Core;
  }

  /** The same after that transport has returned and the socket was opened again. */
  lemma Reopened() returns (r: Reg)
    ensures Inv(r) && Size(r) == 4 && r.ids == {0, 1} && r.marks == {}
    ensures Master(r.xports, 0) && Master(r.xports, 1)
    ensures r.xports[0].value == Xprt(0, None, 0, 1, 9, true) && r.xports[1].value.sock == 1
    ensures r.socks[1] == Some(1)
    ensures Run(Init(4), [Open(1, 9)] + ([Return(0)] + [Open(1, 9)])) == Running(r)
  {
    var r1 := Opened();
    RunStep(Init(4), Open(1, 9), [Return(0)] + [Open(1, 9)]);
    RunStep(r1, Return(0), [Open(1, 9)]);
    ReturnedKeeps(r1, 0, true);
    var r2 := SetReturned(r1, 0, true);
    AllocIsLeastFree(r2);
    assert r2.ids == {0} && AllocId(r2) == 1;
    RegisterMasterKeeps(r2, 1, 9);
    RegisteredMaster(r2, 1, 9);
    r := RegisterMaster(r2, 1, 9).r;
    RunStep(r2, Open(1, 9), []);
    hide Core;
    assert [Open(1, 9)] == [Open(1, 9)] + [];
  }

  lemma {:induction false} RunConcat(r: Reg, a: seq<Step>, b: seq<Step>)
    requires Inv(r)
    ensures var o := Run(r, a);
            (o.Running? ==> Inv(o.r)) && Run(r, a + b) == if o.Running? then Run(o.r, b) else o
    decreases a
  {
    hide Inv, Next;
    if a == [] {
      assert a + b == b;
    } else {
      assert (a + b)[1..] == a[1..] + b;
      var o := Next(r, a[0]);
      if o.Running? {
        RunConcat(o.r, a[1..], b);
      }
    }
  }

  /** Reaping a marked master without clones that is the only marked transport. */
  lemma ReapSingle(r: Reg)
    requires Inv(r) && r.marks == {0} && Master(r.xports, 0) && r.xports[0].value.refcnt == 0
    ensures r.count > 0 && Unregister(r, 0).Running?
    ensures r.markCount == 1 && ReapFrom(r, 0).r == Unmark(Without(r, 0), 0)
  {
    assert 0 in r.ids && r.maxid >= 0;
    UnreferencedIsRemovable(r, 0);
    UnregisterKeeps(r, 0);
    assert r.markCount == 1;
    hide Inv, Core, Removable;
    assert ReapOne(r, 0).r == Unmark(Without(r, 0), 0);
    assert ReapFrom(ReapOne(r, 0).r, 1).r == ReapOne(r, 0).r;
  }

  /**
   * With reuse it can fail: the transport that had the socket first is reaped later, clears
   * the entry of the one that took it over, and nothing polls the socket any more.
   */
  lemma ReuseOrphansAMaster()
    ensures var o := Run(Init(4), ([Open(1, 9)] + ([Return(0)] + [Open(1, 9)])) + ([Mark(0)] + [Reap]));
            && o.Running? && |o.r.socks| == Size(o.r) == 4 && !CheckXports(o.r)
            && Master(o.r.xports, 1) && o.r.xports[1].value.sock == 1 && o.r.socks[1].None?
            && forall s: nat :: Occupied(o.r.poll, o.r.maxPoll, s) ==> o.r.poll[s] != 1
  {
    hide Inv, Core, CheckXports, ReapFrom;
    var r := Reopened();
    RunConcat(Init(4), [Open(1, 9)] + ([Return(0)] + [Open(1, 9)]), [Mark(0)] + [Reap]);
    RunStep(r, Mark(0), [Reap]);
    TakenAway(r);
    RunStep(SetMark(r, 0), Reap, []);
    assert [Reap] == [Reap] + [];
  }

  lemma TakenAway(r: Reg)
    requires Inv(r) && Size(r) == 4 && r.marks == {} && Master(r.xports, 0) && Master(r.xports, 1)
    requires r.xports[0].value.refcnt == 0 && r.xports[0].value.sock == 1 == r.xports[1].value.sock
    ensures Inv(SetMark(r, 0))
    ensures var r' := ReapFrom(SetMark(r, 0), 0).r;
            && Inv(r') && |r'.socks| == Size(r') == 4 && !CheckXports(r')
            && Master(r'.xports, 1) && r'.xports[1].value.sock == 1 && r'.socks[1].None?
            && forall s: nat :: Occupied(r'.poll, r'.maxPoll, s) ==> r'.poll[s] != 1
  {
    MarkKeeps(r, 0);
    var r1 := SetMark(r, 0);
    SockEntries(r1);
    hide Inv, Core, CheckXports;
    ReapSingle(r1);
    WithoutRest(r1, 0);
    var r2 := ReapFrom(r1, 0).r;
    SockEntries(r2);
    CheckIsReachability(r2);
    hide Unregister;
    assert Master(r2.xports, 1) && r2.xports[1].value.sock == 1;
  }

  /** The server dies when a socket that is in use, or in use again, is opened. */
  lemma BusySocketDies()
    ensures Run(Init(4), [Open(1, 9)] + [Open(1, 9)]) == Died
    ensures Run(Init(4), [Open(1, 9)] + ([Return(0)] + ([Resume(0)] + [Open(1, 9)]))) == Died
  {
    hide Inv, Next, SetReturned;
    var r := Opened();
    var last := [Open(1, 9)];
    var r1, r2 := Reused(r);
    BusyDies(r, 1, 9);
    BusyDies(r2, 1, 9);
    RunStep(Init(4), Open(1, 9), last);
    RunStep(Init(4), Open(1, 9), [Return(0)] + ([Resume(0)] + last));
    RunStep(r, Return(0), [Resume(0)] + last);
    RunStep(r1, Resume(0), last);
    RunStep(r, Open(1, 9), []);
    RunStep(r2, Open(1, 9), []);
    assert last == last + [];
  }

  lemma BusyDies(r: Reg, sock: nat, port: nat)
    requires Inv(r) && sock < Size(r) && |r.socks| == Size(r) && r.socks[sock].Some?
    requires r.socks[sock].value < Size(r) && r.xports[r.socks[sock].value].Some?
    requires !r.xports[r.socks[sock].value].value.returned
    ensures Next(r, Open(sock, port)) == Died
  {
    RegistrationRunsIff(r, sock, port);
    NextCases(r, Open(sock, port));
    hide Inv, Next, RegisterMaster;
  }

  /** A transport that has returned and is used again is as it was. */
  lemma Reused(r: Reg) returns (r1: Reg, r2: Reg)
    requires Inv(r) && Size(r) == |r.socks| == 4 && r.socks[1] == Some(0)
    requires r.xports[0] == Some(Xprt(0, None, 0, 1, 9, false))
    ensures Next(r, Return(0)) == Running(r1) && Inv(r1)
    ensures Next(r1, Resume(0)) == Running(r2) && Inv(r2)
    ensures Size(r2) == |r2.socks| == 4 && r2.socks[1] == Some(0) && r2.xports[0] == r.xports[0]
  {
    ReturnedKeeps(r, 0, true);
    r1 := SetReturned(r, 0, true);
    ReturnedKeeps(r1, 0, false);
    r2 := SetReturned(r1, 0, false);
    NextCases(r, Return(0));
    NextCases(r1, Resume(0));
    hide Inv, Next;
  }

  /** A reachable state in which removing a master by hand leaves a clone without its parent. */
  lemma OrphanedClone()
    ensures var o := Run(Init(4), [Open(1, 9)] + [Clone(1)]);
            && o.Running? && Core(o.r) && CloneOf(o.r.xports, 1, 0)
            && |o.r.socks| == Size(o.r) && o.r.count > 0 && Unregister(o.r, 0).Running?
            && !Parented(Without(o.r, 0).xports)
  {
    var r := Opened();
    SockEntries(r);
    AllocIsLeastFree(r);
    assert AllocId(r) == 1 && Master(r.xports, 0);
    RegisterCloneKeeps(r, 0);
    RegisteredClone(r, 0);
    var r' := RegisterClone(r, 0).r;
    RunStep(Init(4), Open(1, 9), [Clone(1)]);
    RunStep(r, Clone(1), []);
    assert [Clone(1)] == [Clone(1)] + [];
    hide Inv, Core, AllocId, RegisterClone, Parented;
    assert 1 in Clones(r'.xports, 0);
    UnregisterOrphansClones(r', 0);
  }
}
