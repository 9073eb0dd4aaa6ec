/**
 * The socket entries and the poll slots: what check_xports demands of them, what a removal
 * takes with it, and when that hurts a transport that stays.
 */
module RegistrySockets {
  import opened Bytes
  import opened RegistrySpec
  import opened RegistryInv
  import opened RegistryGc
  import opened RegistryShutdown

  /** What check_xports checks. */
  ghost predicate CheckXports(r: Reg)
    requires |r.socks| == Size(r)
  {
    && (forall i: nat, j: nat :: i < j <= r.maxid && Live(r.xports, i) && Live(r.xports, j) ==>
          r.xports[i].value.id != r.xports[j].value.id)
    && (forall id: nat :: id <= r.maxid && Master(r.xports, id) ==>
          && r.xports[id].value.sock < |r.socks| && r.socks[r.xports[id].value.sock].Some?
          && id in r.ids)
    && (forall c: nat, p: nat :: c <= r.maxid && CloneOf(r.xports, c, p) ==> Live(r.xports, p))
    && (forall id: nat :: id <= r.maxid && Live(r.xports, id) ==>
          r.xports[id].value.refcnt == |Clones(r.xports, id)|)
  }

  ghost predicate MastersReachable(r: Reg) {
    forall id: nat :: Master(r.xports, id) ==>
      r.xports[id].value.sock < |r.socks| && r.socks[r.xports[id].value.sock].Some?
  }

  /** What the invariant leaves to check: the rest of the self-check always passes. */
  lemma CheckIsReachability(r: Reg)
    requires Inv(r)
    ensures CheckXports(r) <==> MastersReachable(r)
  {
    if CheckXports(r) {
      forall id: nat | Master(r.xports, id)
        ensures r.xports[id].value.sock < |r.socks| && r.socks[r.xports[id].value.sock].Some?
      {
        assert id <= r.maxid;
      }
    }
    if MastersReachable(r) {
      forall c: nat, p: nat | CloneOf(r.xports, c, p) ensures Live(r.xports, p) {
        assert Master(r.xports, p);
      }
      hide Clones;
    }
  }

  /** Some poll slot was filled for the transport. */
  ghost predicate Attended(owner: map<nat, nat>, id: nat) {
    exists s :: s in owner && owner[s] == id
  }

  ghost predicate MastersPolled(r: Reg) {
    forall id: nat :: Master(r.xports, id) ==> Attended(r.owner, id)
  }

  /** A master that is polled is polled in exactly one slot, on its own socket. */
  lemma PolledOnce(r: Reg, id: nat)
    requires Inv(r) && MastersPolled(r) && Master(r.xports, id)
    ensures exists s: nat ::
      && Occupied(r.poll, r.maxPoll, s) && r.poll[s] == r.xports[id].value.sock && r.owner[s] == id
      && forall t :: t in r.owner && t != s ==> r.owner[t] != id
  {
    var s :| s in r.owner && r.owner[s] == id;
    assert Occupied(r.poll, r.maxPoll, s);
  }

  // -- what a removal takes with it -------------------------------------------

  /** The entries and the poll slots of the sockets in `ks` are gone, and no others. */
  ghost predicate Swept(r: Reg, r': Reg, ks: set<int>) {
    && |r'.socks| == |r.socks| && |r'.poll| == |r.poll|
    && (forall k :: 0 <= k < |r.socks| ==> (r'.socks[k].Some? <==> r.socks[k].Some? && k !in ks))
    && (forall s: nat :: s in r'.owner <==> s in r.owner && s < |r.poll| && r.poll[s] !in ks)
    && (forall s: nat :: s in r'.owner ==> r'.owner[s] == r.owner[s] && r'.poll[s] == r.poll[s])
  }

  lemma SweptTwice(r: Reg, r1: Reg, r2: Reg, ks: set<int>, ls: set<int>)
    requires Swept(r, r1, ks) && Swept(r1, r2, ls)
    ensures Swept(r, r2, ks + ls)
  {
  }

  lemma SweptNothing(r: Reg)
    requires Core(r)
    ensures Swept(r, r, {})
  {
    assert forall s: nat :: s in r.owner ==> s < |r.poll|;
  }

  /** Taking a master out sweeps its socket; taking a clone out sweeps nothing. */
  lemma UnregisterSweeps(r: Reg, id: nat)
    requires Core(r) && Live(r.xports, id)
    ensures r.count > 0 && |r.socks| == Size(r) && Unregister(r, id).Running?
    ensures Swept(r, Without(r, id), if Master(r.xports, id) then {r.xports[id].value.sock} else {})
  {
    UnregisterRuns(r, id);
    SweptNothing(r);
    assert r.xports[id].value.sock < Size(r) && |r.poll| == Size(r);
    assert forall s: nat :: s in r.owner ==> s < r.maxPoll && s < |r.poll|;
    hide Core, Unregister;
    WithoutRest(r, id);
  }

  lemma WithoutRest(r: Reg, id: nat)
    requires |r.socks| == Size(r) && r.count > 0 && Unregister(r, id).Running?
    ensures var r', x := Without(r, id), r.xports[id].value;
            if x.parent.Some? then r'.socks == r.socks && r'.poll == r.poll && r'.owner == r.owner
            else x.sock < |r.socks| && r'.socks == r.socks[x.sock := None]
                 && r'.poll == PollRemove(r.poll, r.maxPoll, x.sock) && r'.owner == DropOwners(r.owner, r.poll, x.sock)
  {
  }

  /** The masters of `r` that are still in r'. */
  ghost predicate Stays(r: Reg, r': Reg, id: nat) {
    Master(r.xports, id) && Live(r'.xports, id)
  }

  /** No master that stays is on a swept socket. */
  ghost predicate Spared(r: Reg, r': Reg, ks: set<int>) {
    forall id: nat :: Stays(r, r', id) ==> r.xports[id].value.sock !in ks
  }

  /**
   * When sockets are swept, the masters that stay keep their entries, and keep being
   * polled, exactly when none of them is on a swept socket.
   */
  lemma SweepSparesIff(r: Reg, r': Reg, ks: set<int>)
    requires Core(r) && Swept(r, r', ks) && Survive(r.xports, r'.xports)
    ensures MastersReachable(r) ==> (MastersReachable(r') <==> Spared(r, r', ks))
    ensures MastersPolled(r) ==> (MastersPolled(r') <==> Spared(r, r', ks))
  {
    forall id: nat ensures Master(r'.xports, id) <==> Stays(r, r', id) {
    }
    assert forall id: nat :: Stays(r, r', id) ==> r'.xports[id].value.sock == r.xports[id].value.sock;
    hide Core, Survive;
    if MastersReachable(r) {
      SpareReachable(r, r', ks);
    }
    if MastersPolled(r) {
      SparePolled(r, r', ks);
    }
  }

  lemma SpareReachable(r: Reg, r': Reg, ks: set<int>)
    requires Swept(r, r', ks) && MastersReachable(r)
    requires forall id: nat :: Master(r'.xports, id) <==> Stays(r, r', id)
    requires forall id: nat :: Stays(r, r', id) ==> r'.xports[id].value.sock == r.xports[id].value.sock
    ensures MastersReachable(r') <==> Spared(r, r', ks)
  {
    hide Swept;
    forall id: nat | Stays(r, r', id)
      ensures var k := r.xports[id].value.sock;
              k < |r'.socks| && (r'.socks[k].Some? <==> k !in ks)
    {
      SweptAt(r, r', ks, r.xports[id].value.sock);
    }
    hide Stays;
  }

  lemma SweptAt(r: Reg, r': Reg, ks: set<int>, k: nat)
    requires Swept(r, r', ks) && k < |r.socks|
    ensures |r'.socks| == |r.socks| && (r'.socks[k].Some? <==> r.socks[k].Some? && k !in ks)
  {
  }

  lemma SparePolled(r: Reg, r': Reg, ks: set<int>)
    requires Swept(r, r', ks) && MastersPolled(r) && Polled(r.xports, r.poll, r.maxPoll, r.owner)
    requires forall id: nat :: Master(r'.xports, id) <==> Stays(r, r', id)
    ensures MastersPolled(r') <==> Spared(r, r', ks)
  {
    forall id: nat | Stays(r, r', id)
      ensures Attended(r'.owner, id) <==> r.xports[id].value.sock !in ks
    {
      var s :| s in r.owner && r.owner[s] == id;
      assert r.poll[s] == r.xports[id].value.sock;
      if Attended(r'.owner, id) {
        var t :| t in r'.owner && r'.owner[t] == id;
        assert t == s;
      } else {
        assert s !in r'.owner;
      }
    }
    hide Stays, Attended, Polled;
  }

  /**
   * Taking a master out leaves every other master its socket entry and its poll slot
   * exactly when no other master is on its socket.
   */
  lemma RemovalDisturbsIff(r: Reg, id: nat)
    requires Core(r) && Removable(r.xports, id) && Master(r.xports, id)
    ensures |r.socks| == Size(r) && r.count > 0 && Unregister(r, id).Running?
    ensures var alone := forall m: nat :: Master(r.xports, m) && m != id ==>
                           r.xports[m].value.sock != r.xports[id].value.sock;
            && (MastersReachable(r) ==> (MastersReachable(Without(r, id)) <==> alone))
            && (MastersPolled(r) ==> (MastersPolled(Without(r, id)) <==> alone))
  {
    hide Core, Removable, Swept, MastersReachable, MastersPolled, Survive, Unregister;
    UnregisterSweeps(r, id);
    UnregisterKeeps(r, id);
    var r', ks := Without(r, id), {r.xports[id].value.sock};
    GoneSurvive(r.xports, r'.xports, id);
    SweepSparesIff(r, r', ks);
    forall m: nat ensures Stays(r, r', m) <==> Master(r.xports, m) && m != id {
    }
    hide Stays;
  }

  // -- what a pass takes with it ----------------------------------------------

  ghost function SocksOf(xs: Table, ids: set<nat>): set<int> {
    set d | d in ids && Master(xs, d) :: xs[d].value.sock
  }

  lemma SocksOfSum(xs: Table, a: set<nat>, b: set<nat>)
    ensures SocksOf(xs, a + b) == SocksOf(xs, a) + SocksOf(xs, b)
  {
    forall s ensures s in SocksOf(xs, a + b) <==> s in SocksOf(xs, a) + SocksOf(xs, b) {
    }
  }

  lemma SocksOfOne(xs: Table, k: nat)
    ensures SocksOf(xs, {k}) == if Master(xs, k) then {xs[k].value.sock} else {}
    ensures SocksOf(xs, {}) == {}
  {
  }

  lemma SocksOfSame(xs: Table, ys: Table, ids: set<nat>)
    requires Survive(xs, ys) && forall d :: d in ids ==> Live(ys, d)
    ensures SocksOf(xs, ids) == SocksOf(ys, ids)
  {
    forall d | d in ids
      ensures (Master(xs, d) <==> Master(ys, d)) && Live(xs, d) && xs[d].value.sock == ys[d].value.sock
    {
    }
    hide Survive;
  }

  /** The sockets of the masters that a pass removes. */
  ghost function DoomedSocks(r: Reg): set<int> {
    SocksOf(r.xports, DoomedSet(r))
  }

  /** A pass removes no master whose socket is also that of a master it leaves. */
  ghost predicate Undisturbed(r: Reg) {
    forall d, m: nat :: d in DoomedSet(r) && Master(r.xports, d) && Master(r.xports, m) && m !in DoomedSet(r) ==>
      r.xports[m].value.sock != r.xports[d].value.sock
  }

  lemma ReapOneSweeps(r: Reg, k: nat)
    requires Inv(r)
    ensures var o := ReapOne(r, k);
            Swept(r, o.r, if o.n == 1 && Master(r.xports, k) then {r.xports[k].value.sock} else {})
  {
    ReapOneCases(r, k);
    SweptNothing(r);
    assert k in r.marks ==> Live(r.xports, k);
    hide Inv, Core, ReapOne, Swept, Removable, Unregister, Without;
    if k in r.marks {
      if Unreferenced(r.xports, k) {
        UnregisterSweeps(r, k);
        SweptUnmark(r, Without(r, k), k, if Master(r.xports, k) then {r.xports[k].value.sock} else {});
      } else {
        SweptUnmark(r, r, k, {});
      }
    }
  }

  lemma SweptUnmark(r: Reg, r': Reg, id: nat, ks: set<int>)
    requires Swept(r, r', ks) && r'.markCount > 0
    ensures Swept(r, Unmark(r', id), ks)
  {
  }

  lemma DoomedAreLive(r: Reg)
    requires Inv(r)
    ensures forall d :: d in DoomedSet(r) ==> Live(r.xports, d)
  {
    forall d | d in DoomedSet(r) ensures Live(r.xports, d) {
      assert d in r.marks && d in r.ids;
    }
  }

  lemma DoomedSocksStep(r: Reg, k: nat)
    requires Inv(r) && forall m :: m in r.marks ==> k <= m
    ensures var o := ReapOne(r, k);
            DoomedSocks(r) ==
              (if o.n == 1 && Master(r.xports, k) then {r.xports[k].value.sock} else {}) + DoomedSocks(o.r)
  {
    hide Inv, ReapOne, DoomedSet, Survive, SocksOf;
    var o := ReapOne(r, k);
    DoomedStep(r, k);
    DoomedAreLive(o.r);
    SocksOfSame(r.xports, o.r.xports, DoomedSet(o.r));
    SocksOfSum(r.xports, if o.n == 1 then {k} else {}, DoomedSet(o.r));
    SocksOfOne(r.xports, k);
    assert DoomedSet(r) == (if o.n == 1 then {k} else {}) + DoomedSet(o.r);
  }

  lemma NothingToReap(r: Reg, k: nat)
    requires Inv(r) && (forall m :: m in r.marks ==> k <= m) && (k > r.maxid || r.markCount == 0)
    ensures DoomedSocks(r) == {} && Swept(r, r, {})
  {
    NoMarksLeft(r, k);
    SweptNothing(r);
    SocksOfOne(r.xports, k);
    hide Inv, DoomedSet, SocksOf, Swept;
  }

  /** A pass sweeps exactly the sockets of the masters it removes. */
  lemma {:induction false} ReapSweeps(r: Reg, k: nat)
    requires Inv(r) && forall m :: m in r.marks ==> k <= m
    ensures Swept(r, ReapFrom(r, k).r, DoomedSocks(r))
    decreases r.maxid - k
  {
    hide Inv, Core, ReapOne, DoomedSocks, Swept, Gone;
    if k > r.maxid || r.markCount == 0 {
      NothingToReap(r, k);
    } else {
      var o := ReapOne(r, k);
      ReapOneEffect(r, k);
      ReapOneSweeps(r, k);
      DoomedSocksStep(r, k);
      ReapSweeps(o.r, k + 1);
      var one: set<int> := if o.n == 1 && Master(r.xports, k) then {r.xports[k].value.sock} else {};
      SweptTwice(r, o.r, ReapFrom(o.r, k + 1).r, one, DoomedSocks(o.r));
    }
  }

  /**
   * After a pass every master still has its socket entry, and is still polled, exactly
   * when no master the pass removed shares a socket with one it left.
   */
  lemma PassDisturbsIff(r: Reg)
    requires Inv(r)
    ensures MastersReachable(r) ==> (MastersReachable(ReapFrom(r, 0).r) <==> Undisturbed(r))
    ensures MastersPolled(r) ==> (MastersPolled(ReapFrom(r, 0).r) <==> Undisturbed(r))
  {
    var r', ks := ReapFrom(r, 0).r, DoomedSocks(r);
    ReapAllIsExact(r);
    ReapSweeps(r, 0);
    forall m: nat ensures Stays(r, r', m) <==> Master(r.xports, m) && m !in DoomedSet(r) {
      assert Live(r'.xports, m) <==> m in r'.ids;
      assert Live(r.xports, m) <==> m in r.ids;
    }
    SweepSparesIff(r, r', ks);
    hide Inv, Core, ReapFrom, DoomedSet, Swept, Survive, MastersReachable, MastersPolled, Stays;
    if Spared(r, r', ks) {
      forall d, m: nat | d in DoomedSet(r) && Master(r.xports, d) && Master(r.xports, m) && m !in DoomedSet(r)
        ensures r.xports[m].value.sock != r.xports[d].value.sock
      {
        assert Stays(r, r', m) && r.xports[d].value.sock in ks;
      }
    }
  }

  // -- what the other steps take with them: nothing ---------------------------

  ghost predicate Served(r: Reg) {
    MastersReachable(r) && MastersPolled(r)
  }

  lemma FreeSlot(r: Reg)
    requires Core(r)
    ensures |r.socks| == |r.poll| == Size(r) && r.maxPoll <= Size(r)
    ensures EmptyFrom(r.poll, 0, r.maxPoll) !in r.owner
  {
  }

  lemma OpenServes(r: Reg, sock: nat, port: nat)
    requires Inv(r) && Served(r) && sock < Size(r) && AllocId(r) < Size(r) && Available(r, sock)
    ensures RegisterMaster(r, sock, port).Running? && Served(RegisterMaster(r, sock, port).r)
  {
    FreeSlot(r);
    RegisteredMaster(r, sock, port);
    hide RegisterMaster, AllocId, Inv, Core, EmptyFrom, Served;
    OpenedServes(r, RegisterMaster(r, sock, port).r, Xprt(AllocId(r), None, 0, sock, port, false),
                 EmptyFrom(r.poll, 0, r.maxPoll));
  }

  lemma OpenedServes(r: Reg, r': Reg, x: Xprt, s: nat)
    requires Served(r) && x.id < |r.xports| && x.sock < |r.socks| && s !in r.owner
    requires r'.xports == r.xports[x.id := Some(x)] && r'.socks == r.socks[x.sock := Some(x.id)]
    requires r'.owner == r.owner[s := x.id]
    ensures Served(r')
  {
    forall m: nat | Master(r'.xports, m)
      ensures Attended(r'.owner, m) && r'.xports[m].value.sock < |r'.socks|
              && r'.socks[r'.xports[m].value.sock].Some?
    {
      if m == x.id {
        assert s in r'.owner && r'.owner[s] == m;
      } else {
        assert Master(r.xports, m);
        var t :| t in r.owner && r.owner[t] == m;
        assert t in r'.owner && r'.owner[t] == m;
      }
    }
  }

  /** The same masters on the same sockets. */
  ghost predicate SameMasters(xs: Table, ys: Table) {
    forall m: nat :: Master(ys, m) ==> Master(xs, m) && ys[m].value.sock == xs[m].value.sock
  }

  lemma SameServed(r: Reg, r': Reg)
    requires Served(r) && SameMasters(r.xports, r'.xports) && r'.socks == r.socks && r'.owner == r.owner
    ensures Served(r')
  {
  }

  lemma CloneServes(r: Reg, p: nat)
    requires Inv(r) && Served(r) && Master(r.xports, p) && AllocId(r) < Size(r)
    ensures RegisterClone(r, p).Running? && Served(RegisterClone(r, p).r)
    ensures SameMasters(r.xports, RegisterClone(r, p).r.xports)
  {
    hide Core, RegisterClone, AllocId;
    RegisteredClone(r, p);
    var r' := RegisterClone(r, p).r;
    hide Inv, Served;
    assert SameMasters(r.xports, r'.xports);
    SameServed(r, r');
  }
}
