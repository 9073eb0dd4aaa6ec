/** Shutdown: xprt_destroy_all and the order in which it takes transports down. */
module RegistryShutdown {
  import opened Bytes
  import opened RegistrySpec
  import opened RegistryInv
  import opened RegistryGc

  /** The three passes: clones, then transports without a port, then the rest. */
  datatype Phase = ClonesOnly | Portless | Everything

  predicate Picked(phase: Phase, x: Xprt) {
    match phase
    case ClonesOnly => x.parent.Some?
    case Portless => x.port == 0
    case Everything => true
  }

  predicate PickedAt(phase: Phase, xs: Table, id: nat) {
    Live(xs, id) && Picked(phase, xs[id].value)
  }

  ghost predicate NoClones(xs: Table) {
    forall c: nat :: Live(xs, c) ==> Master(xs, c)
  }

  /** What a pass finds it can remove. */
  lemma PickedIsRemovable(r: Reg, phase: Phase, id: nat)
    requires Core(r) && PickedAt(phase, r.xports, id)
    requires phase.ClonesOnly? || NoClones(r.xports)
    ensures Removable(r.xports, id)
  {
    if Master(r.xports, id) {
      assert Clones(r.xports, id) == {};
    }
  }

  lemma NoClonesStays(xs: Table, ys: Table)
    requires NoClones(xs) && Survive(xs, ys)
    ensures NoClones(ys)
  {
  }

  lemma GoneSurvive(xs: Table, ys: Table, id: nat)
    requires Gone(xs, ys, id)
    ensures Survive(xs, ys)
  {
  }

  datatype Destroyed = Destroyed(r: Reg, order: seq<nat>)

  /** One pass over the ids, with the ids it takes down in order. */
  function DestroyFrom(r: Reg, phase: Phase, id: nat): (o: Destroyed)
    requires Core(r) && (phase.ClonesOnly? || NoClones(r.xports))
    ensures Core(o.r) && o.r.maxid == r.maxid
    decreases r.maxid - id
  {
    if id > r.maxid then Destroyed(r, [])
    else if !PickedAt(phase, r.xports, id) then DestroyFrom(r, phase, id + 1)
    else
      PickedIsRemovable(r, phase, id);
      UnregisterKeeps(r, id);
      GoneSurvive(r.xports, Without(r, id).xports, id);
      assert NoClones(r.xports) ==> NoClones(Without(r, id).xports);
      var rest := DestroyFrom(Without(r, id), phase, id + 1);
      Destroyed(rest.r, [id] + rest.order)
  }

  ghost predicate Increasing(s: seq<nat>, from: nat) {
    && (forall i, j :: 0 <= i < j < |s| ==> s[i] < s[j])
    && (forall i :: 0 <= i < |s| ==> from <= s[i])
  }

  lemma IncreasingCons(id: nat, s: seq<nat>)
    requires Increasing(s, id + 1)
    ensures Increasing([id] + s, id)
  {
  }

  /** A pass removes exactly the transports it picks, in the order of their ids. */
  ghost predicate Passed(r: Reg, phase: Phase, k: nat, o: Destroyed) {
    && Increasing(o.order, k)
    && (forall j: nat :: j in o.order <==> k <= j && PickedAt(phase, r.xports, j))
    && (forall j: nat :: Live(o.r.xports, j) <==> Live(r.xports, j) && j !in o.order)
    && Survive(r.xports, o.r.xports)
  }

  lemma PassedCons(r: Reg, r1: Reg, phase: Phase, k: nat, o: Destroyed)
    requires PickedAt(phase, r.xports, k) && Gone(r.xports, r1.xports, k) && Passed(r1, phase, k + 1, o)
    ensures Passed(r, phase, k, Destroyed(o.r, [k] + o.order))
  {
    IncreasingCons(k, o.order);
    GoneSurvive(r.xports, r1.xports, k);
    SurviveBoth(r.xports, r1.xports, o.r.xports);
    var order := [k] + o.order;
    forall j: nat ensures j in order <==> k <= j && PickedAt(phase, r.xports, j) {
      if j > k {
        assert Live(r1.xports, j) <==> Live(r.xports, j);
      }
    }
    hide Survive, Increasing, Clones;
    forall j: nat ensures Live(o.r.xports, j) <==> Live(r.xports, j) && j !in order {
      assert Live(r1.xports, j) <==> Live(r.xports, j) && j != k;
    }
  }

  lemma PassedNone(r: Reg, phase: Phase, k: nat)
    requires Core(r) && k > r.maxid
    ensures Passed(r, phase, k, Destroyed(r, []))
  {
    forall j: nat | k <= j ensures !Live(r.xports, j) {
    }
    hide Core;
  }

  lemma PassedSkip(r: Reg, phase: Phase, k: nat, o: Destroyed)
    requires !PickedAt(phase, r.xports, k) && Passed(r, phase, k + 1, o)
    ensures Passed(r, phase, k, o)
  {
  }

  /** Taking one transport down leaves a registry the pass can go on with. */
  lemma PickedGoes(r: Reg, phase: Phase, k: nat)
    requires Core(r) && (phase.ClonesOnly? || NoClones(r.xports)) && PickedAt(phase, r.xports, k)
    ensures |r.socks| == Size(r) && r.count > 0 && Unregister(r, k).Running?
    ensures var r1 := Without(r, k);
            && Core(r1) && Removed(r, r1, k) && (phase.ClonesOnly? || NoClones(r1.xports))
  {
    PickedIsRemovable(r, phase, k);
    UnregisterKeeps(r, k);
    GoneSurvive(r.xports, Without(r, k).xports, k);
    hide Core, Removed;
  }

  lemma {:induction false} DestroyFromIsExact(r: Reg, phase: Phase, k: nat)
    requires Core(r) && (phase.ClonesOnly? || NoClones(r.xports))
    ensures Passed(r, phase, k, DestroyFrom(r, phase, k))
    decreases r.maxid - k
  {
    hide Core, Passed, Gone, Survive, NoClones, Removable, PickedAt;
    if k > r.maxid {
      PassedNone(r, phase, k);
    } else if !PickedAt(phase, r.xports, k) {
      DestroyFromIsExact(r, phase, k + 1);
      PassedSkip(r, phase, k, DestroyFrom(r, phase, k + 1));
    } else {
      PickedGoes(r, phase, k);
      var r1 := Without(r, k);
      DestroyFromIsExact(r1, phase, k + 1);
      PassedCons(r, r1, phase, k, DestroyFrom(r1, phase, k + 1));
    }
  }

  lemma DestroyFromCases(r: Reg, phase: Phase, k: nat)
    requires Core(r) && (phase.ClonesOnly? || NoClones(r.xports))
    ensures k > r.maxid ==> DestroyFrom(r, phase, k) == Destroyed(r, [])
    ensures k <= r.maxid && !PickedAt(phase, r.xports, k) ==>
      DestroyFrom(r, phase, k) == DestroyFrom(r, phase, k + 1)
    ensures k <= r.maxid && PickedAt(phase, r.xports, k) ==>
      && |r.socks| == Size(r) && r.count > 0 && Unregister(r, k).Running?
      && Core(Without(r, k)) && (phase.ClonesOnly? || NoClones(Without(r, k).xports))
      && var rest := DestroyFrom(Without(r, k), phase, k + 1);
         DestroyFrom(r, phase, k) == Destroyed(rest.r, [k] + rest.order)
  {
    hide Core, NoClones, PickedAt;
    if k <= r.maxid && PickedAt(phase, r.xports, k) {
      PickedGoes(r, phase, k);
    }
  }

  /** What has been taken down already, followed by what the rest of a pass takes down. */
  function Onto(order: seq<nat>, d: Destroyed): Destroyed {
    Destroyed(d.r, order + d.order)
  }

  lemma OntoLaws(order: seq<nat>, id: nat, d: Destroyed)
    ensures Onto([], d) == d && Onto(order, Destroyed(d.r, [])) == Destroyed(d.r, order)
    ensures Onto(order, Destroyed(d.r, [id] + d.order)) == Onto(order + [id], d)
  {
    assert [] + d.order == d.order && order + [] == order;
    assert order + ([id] + d.order) == (order + [id]) + d.order;
  }

  // -- all three passes -------------------------------------------------------

  lemma AfterClones(r: Reg, o: Destroyed)
    requires Passed(r, ClonesOnly, 0, o)
    ensures NoClones(o.r.xports)
  {
    forall c: nat | Live(o.r.xports, c) ensures Master(o.r.xports, c) {
      assert !PickedAt(ClonesOnly, r.xports, c);
    }
  }

  function DestroyAll(r: Reg): (o: Destroyed)
    requires Core(r)
    ensures Core(o.r)
  {
    DestroyFromIsExact(r, ClonesOnly, 0);
    var a := DestroyFrom(r, ClonesOnly, 0);
    AfterClones(r, a);
    DestroyFromIsExact(a.r, Portless, 0);
    var b := DestroyFrom(a.r, Portless, 0);
    NoClonesStays(a.r.xports, b.r.xports);
    var c := DestroyFrom(b.r, Everything, 0);
    Destroyed(c.r, a.order + b.order + c.order)
  }

  /** Nothing is registered, no socket has a transport, nothing is polled. */
  ghost predicate Vacant(r: Reg) {
    && r.ids == {} && r.count == 0
    && (forall id: nat :: !Live(r.xports, id))
    && (forall k :: 0 <= k < |r.socks| ==> r.socks[k].None?)
    && (forall s: nat :: !Occupied(r.poll, r.maxPoll, s))
  }

  lemma NothingLiveIsVacant(r: Reg)
    requires Core(r) && forall id: nat :: !Live(r.xports, id)
    ensures Vacant(r)
  {
    assert r.ids == {};
    forall s: nat ensures !Occupied(r.poll, r.maxPoll, s) {
      assert s in r.owner <==> Occupied(r.poll, r.maxPoll, s);
    }
  }

  /** The transports a phase takes down are live before it and not after it. */
  lemma PassedOnce(r: Reg, phase: Phase, o: Destroyed)
    requires Passed(r, phase, 0, o)
    ensures forall i :: 0 <= i < |o.order| ==> Live(r.xports, o.order[i]) && !Live(o.r.xports, o.order[i])
    ensures phase.ClonesOnly? ==> forall i :: 0 <= i < |o.order| ==> !Master(r.xports, o.order[i])
    ensures forall i, j :: 0 <= i < j < |o.order| ==> o.order[i] != o.order[j]
  {
    forall i | 0 <= i < |o.order|
      ensures Live(r.xports, o.order[i]) && !Live(o.r.xports, o.order[i])
      ensures phase.ClonesOnly? ==> !Master(r.xports, o.order[i])
    {
      assert o.order[i] in o.order && PickedAt(phase, r.xports, o.order[i]);
    }
  }

  lemma LivesOn(r: Reg, phase: Phase, o: Destroyed, id: nat)
    requires Passed(r, phase, 0, o)
    ensures Live(o.r.xports, id) ==> Live(r.xports, id) && (Master(r.xports, id) <==> Master(o.r.xports, id))
    ensures Live(r.xports, id) ==> Live(o.r.xports, id) || id in o.order
    ensures phase.Everything? ==> !Live(o.r.xports, id)
  {
    assert Live(r.xports, id) ==> PickedAt(Everything, r.xports, id);
  }

  /**
   * Shutdown takes every live transport down exactly once, no master before any clone and
   * no master with a port before one without, and leaves nothing behind.
   */
  lemma ShutdownIsExact(r: Reg)
    requires Core(r)
    ensures var o := DestroyAll(r);
            && Vacant(o.r)
            && (forall i, j :: 0 <= i < j < |o.order| ==> o.order[i] != o.order[j])
            && (forall id: nat :: id in o.order <==> Live(r.xports, id))
            && (forall i, j :: 0 <= i < j < |o.order| && Master(r.xports, o.order[i]) ==> Master(r.xports, o.order[j]))
            && (forall i, j :: 0 <= i < j < |o.order| && Master(r.xports, o.order[i])
                               && r.xports[o.order[i]].value.port != 0 ==>
                  Master(r.xports, o.order[j]) && r.xports[o.order[j]].value.port != 0)
  {
    var a := DestroyFrom(r, ClonesOnly, 0);
    DestroyFromIsExact(r, ClonesOnly, 0);
    AfterClones(r, a);
    var b := DestroyFrom(a.r, Portless, 0);
    DestroyFromIsExact(a.r, Portless, 0);
    NoClonesStays(a.r.xports, b.r.xports);
    var c := DestroyFrom(b.r, Everything, 0);
    DestroyFromIsExact(b.r, Everything, 0);
    hide Core, DestroyFrom;
    ThreePasses(r, a, b, c);
    PortlessFirst(r, a, b, c);
    NothingLiveIsVacant(c.r);
  }

  /** The first pass takes clones, the second masters without a port, the third masters with one. */
  lemma PortlessFirst(r: Reg, a: Destroyed, b: Destroyed, c: Destroyed)
    requires Passed(r, ClonesOnly, 0, a) && Passed(a.r, Portless, 0, b) && Passed(b.r, Everything, 0, c)
    ensures var order := a.order + b.order + c.order;
            forall i, j :: 0 <= i < j < |order| && Master(r.xports, order[i])
                           && r.xports[order[i]].value.port != 0 ==>
              Master(r.xports, order[j]) && r.xports[order[j]].value.port != 0
  {
    forall k | 0 <= k < |a.order| ensures !Master(r.xports, a.order[k]) {
      assert a.order[k] in a.order;
    }
    forall k | 0 <= k < |b.order|
      ensures Live(r.xports, b.order[k]) && r.xports[b.order[k]].value.port == 0
    {
      assert b.order[k] in b.order && PickedAt(Portless, a.r.xports, b.order[k]);
    }
    forall k | 0 <= k < |c.order|
      ensures Master(r.xports, c.order[k]) && r.xports[c.order[k]].value.port != 0
    {
      var id := c.order[k];
      assert id in c.order && Live(b.r.xports, id) && Live(a.r.xports, id);
      assert !PickedAt(Portless, a.r.xports, id) && !PickedAt(ClonesOnly, r.xports, id);
    }
    hide Passed, Master, Live;
  }

  lemma ThreePasses(r: Reg, a: Destroyed, b: Destroyed, c: Destroyed)
    requires Passed(r, ClonesOnly, 0, a) && Passed(a.r, Portless, 0, b) && Passed(b.r, Everything, 0, c)
    ensures var order := a.order + b.order + c.order;
            && (forall i, j :: 0 <= i < j < |order| ==> order[i] != order[j])
            && (forall id: nat :: id in order <==> Live(r.xports, id))
            && (forall i, j :: 0 <= i < j < |order| && Master(r.xports, order[i]) ==> Master(r.xports, order[j]))
            && (forall id: nat :: !Live(c.r.xports, id))
  {
    AfterClones(r, a);
    PassedOnce(r, ClonesOnly, a);
    PassedOnce(a.r, Portless, b);
    PassedOnce(b.r, Everything, c);
    forall id: nat
      ensures Live(a.r.xports, id) ==> Live(r.xports, id) && Master(r.xports, id)
      ensures Live(b.r.xports, id) ==> Live(a.r.xports, id)
      ensures !Live(c.r.xports, id)
      ensures Live(r.xports, id) ==> id in a.order || id in b.order || id in c.order
    {
      LivesOn(r, ClonesOnly, a, id);
      LivesOn(a.r, Portless, b, id);
      LivesOn(b.r, Everything, c, id);
    }
    hide Passed, NoClones, Master, Live;
  }
}
