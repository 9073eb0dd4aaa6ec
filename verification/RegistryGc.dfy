/** Removing transports: one of them, those a reap pass finds, and all of them at shutdown. */
module RegistryGc {
  import opened Bytes
  import opened RegistrySpec
  import opened RegistryInv

  // -- tables -----------------------------------------------------------------

  /** A transport can go when it is a clone, or a master without clones. */
  ghost predicate Removable(xs: Table, id: nat) {
    Live(xs, id) && (Master(xs, id) ==> Clones(xs, id) == {})
  }

  lemma RemoveClones(xs: Table, id: nat, q: nat)
    requires Live(xs, id)
    ensures Clones(xs[id := None], q) == Clones(xs, q) - {id}
  {
    var ys := xs[id := None];
    assert forall c: nat :: CloneOf(ys, c, q) <==> CloneOf(xs, c, q) && c != id;
  }

  lemma RemoveParented(xs: Table, id: nat)
    requires Parented(xs) && Live(xs, id) && Clones(xs, id) == {}
    ensures Parented(xs[id := None])
  {
    var ys := xs[id := None];
    forall c: nat, p: nat | CloneOf(ys, c, p) ensures Master(ys, p) {
      assert CloneOf(xs, c, p);
      assert p == id ==> c in Clones(xs, id);
    }
  }

  /** Nothing is a clone of a clone. */
  lemma ClonesHaveNoClones(xs: Table, id: nat)
    requires Parented(xs) && Live(xs, id) && !Master(xs, id)
    ensures Clones(xs, id) == {}
  {
    forall c: nat ensures !CloneOf(xs, c, id) {
    }
  }

  lemma RemoveMasterCounted(xs: Table, id: nat)
    requires Counted(xs) && Master(xs, id)
    ensures Counted(xs[id := None])
  {
    var ys := xs[id := None];
    forall q: nat | Live(ys, q) ensures ys[q].value.refcnt == |Clones(ys, q)| {
      RemoveClones(xs, id, q);
      assert Live(xs, q) && id !in Clones(xs, q);
    }
  }

  lemma RemoveCloneCounted(xs: Table, id: nat, p: nat)
    requires Counted(xs) && CloneOf(xs, id, p) && Live(xs, p) && id != p
    ensures Counted(xs[p := Some(xs[p].value.(refcnt := xs[p].value.refcnt - 1))][id := None])
  {
    var n := xs[p].value.refcnt - 1;
    var ys := xs[p := Some(xs[p].value.(refcnt := n))];
    var zs := ys[id := None];
    forall q: nat | Live(zs, q) ensures zs[q].value.refcnt == |Clones(zs, q)| {
      RefClones(xs, p, n, q);
      RemoveClones(ys, id, q);
      assert Live(xs, q);
      assert id in Clones(xs, q) <==> q == p;
    }
  }

  /** A clone is in no socket entry and owns no poll slot. */
  lemma RemoveCloneRest(xs: Table, id: nat, socks: seq<Option<nat>>,
                        poll: seq<int>, max: nat, owner: map<nat, nat>)
    requires Live(xs, id) && !Master(xs, id) && Socketed(xs, socks) && Polled(xs, poll, max, owner)
    ensures Socketed(xs[id := None], socks) && Polled(xs[id := None], poll, max, owner)
  {
    var ys := xs[id := None];
    assert forall m: nat :: Master(xs, m) ==> Master(ys, m) && ys[m] == xs[m];
  }

  function DropOwners(owner: map<nat, nat>, poll: seq<int>, sock: int): map<nat, nat> {
    map s | s in owner && s < |poll| && poll[s] != sock :: owner[s]
  }

  /** The entries of a socket go with any master on it. */
  lemma RemoveMasterRest(xs: Table, id: nat, socks: seq<Option<nat>>,
                         poll: seq<int>, max: nat, owner: map<nat, nat>)
    requires Master(xs, id) && xs[id].value.sock < |socks|
    requires Socketed(xs, socks) && Polled(xs, poll, max, owner)
    ensures var k := xs[id].value.sock;
            && Socketed(xs[id := None], socks[k := None])
            && Polled(xs[id := None], PollRemove(poll, max, k), max, DropOwners(owner, poll, k))
  {
    var ys, k := xs[id := None], xs[id].value.sock;
    assert forall m: nat :: Master(xs, m) && m != id ==> Master(ys, m) && ys[m] == xs[m];
    var poll', owner' := PollRemove(poll, max, k), DropOwners(owner, poll, k);
    forall s: nat ensures s in owner' <==> Occupied(poll', max, s) {
      assert s in owner <==> Occupied(poll, max, s);
    }
  }

  // -- one transport ----------------------------------------------------------

  lemma VacateIndexed(r: Reg, id: nat)
    requires Indexed(r) && Live(r.xports, id)
    ensures r.count > 0 && Indexed(Vacate(r, id))
  {
    assert id in r.ids;
    var r' := Vacate(r, id);
    assert forall j: nat :: j != id ==> (Live(r'.xports, j) <==> Live(r.xports, j));
    assert !Live(r'.xports, id);
  }

  lemma UnregisterMasterKeeps(r: Reg, id: nat)
    requires Core(r) && Removable(r.xports, id) && Master(r.xports, id)
    ensures r.count > 0 && Unregister(r, id).Running?
    ensures var r' := Unregister(r, id).r; Core(r') && r'.xports == r.xports[id := None]
  {
    VacateIndexed(r, id);
    var x := r.xports[id].value;
    assert x.sock < Size(r);
    RemoveParented(r.xports, id);
    RemoveMasterCounted(r.xports, id);
    RemoveMasterRest(r.xports, id, r.socks, r.poll, r.maxPoll, r.owner);
    var r' := Unregister(r, id).r;
    assert Indexed(r');
    hide Indexed, Parented, Counted, Socketed, Polled;
  }

  lemma UnregisterCloneKeeps(r: Reg, id: nat, p: nat)
    requires Core(r) && CloneOf(r.xports, id, p)
    ensures r.count > 0 && Live(r.xports, p) && Unregister(r, id).Running?
    ensures var r' := Unregister(r, id).r;
            Core(r') && r'.xports == AddRef(r, p, -1).xports[id := None]
  {
    VacateIndexed(r, id);
    var xs := r.xports;
    assert Master(xs, p);
    ClonesHaveNoClones(xs, id);
    var r1 := AddRef(r, p, -1);
    AddRefIndexed(r, p, -1);
    VacateIndexed(r1, id);
    RefKeeps(xs, p, xs[p].value.refcnt - 1, r.socks, r.poll, r.maxPoll, r.owner);
    RefClones(xs, p, xs[p].value.refcnt - 1, id);
    RemoveParented(r1.xports, id);
    RemoveCloneCounted(xs, id, p);
    RemoveCloneRest(r1.xports, id, r.socks, r.poll, r.maxPoll, r.owner);
    hide Indexed, Parented, Counted, Socketed, Polled;
  }

  /** The registry without a transport. */
  function Without(r: Reg, id: nat): Reg
    requires |r.socks| == Size(r) && r.count > 0 && Unregister(r, id).Running?
  {
    Unregister(r, id).r
  }

  /** Taking any live transport out finds what it looks up. */
  lemma UnregisterRuns(r: Reg, id: nat)
    requires Core(r) && Live(r.xports, id)
    ensures |r.socks| == Size(r) && r.count > 0 && Unregister(r, id).Running?
  {
    VacateIndexed(r, id);
    if !Master(r.xports, id) {
      assert CloneOf(r.xports, id, r.xports[id].value.parent.value);
    }
  }

  /** Taking a master out leaves every clone with its parent exactly when it had no clones. */
  lemma UnregisterOrphansClones(r: Reg, id: nat)
    requires Core(r) && Master(r.xports, id)
    ensures |r.socks| == Size(r) && r.count > 0 && Unregister(r, id).Running?
    ensures Parented(Without(r, id).xports) <==> Clones(r.xports, id) == {}
  {
    UnregisterRuns(r, id);
    var ys := Without(r, id).xports;
    assert ys == r.xports[id := None];
    if Clones(r.xports, id) == {} {
      RemoveParented(r.xports, id);
    } else {
      var c :| c in Clones(r.xports, id);
      assert CloneOf(ys, c, id) && !Master(ys, id);
    }
  }

  /** One transport is gone from a table; the others are as they were but for reference counts. */
  ghost predicate Gone(xs: Table, ys: Table, id: nat) {
    && |ys| == |xs|
    && (forall j: nat :: Live(ys, j) <==> Live(xs, j) && j != id)
    && (forall j: nat :: Live(ys, j) ==> ys[j].value == xs[j].value.(refcnt := ys[j].value.refcnt))
    && (forall q: nat :: Clones(ys, q) == Clones(xs, q) - {id})
  }

  lemma GoneMaster(xs: Table, id: nat)
    requires Live(xs, id)
    ensures Gone(xs, xs[id := None], id)
  {
    forall q: nat ensures Clones(xs[id := None], q) == Clones(xs, q) - {id} {
      RemoveClones(xs, id, q);
    }
    hide Clones;
  }

  lemma GoneClone(xs: Table, id: nat, p: nat, n: int)
    requires Live(xs, id) && Live(xs, p)
    ensures Gone(xs, xs[p := Some(xs[p].value.(refcnt := n))][id := None], id)
  {
    var ys := xs[p := Some(xs[p].value.(refcnt := n))];
    forall q: nat ensures Clones(ys[id := None], q) == Clones(xs, q) - {id} {
      RefClones(xs, p, n, q);
      RemoveClones(ys, id, q);
    }
    hide Clones;
  }

  ghost predicate Removed(r: Reg, r': Reg, id: nat) {
    && Gone(r.xports, r'.xports, id) && r'.maxid == r.maxid
    && r'.ids == r.ids - {id} && r'.marks == r.marks && r'.markCount == r.markCount
  }

  /**
   * Removing a transport that can go keeps the core of the invariant, never follows a
   * vacated slot, and leaves every other transport as it was but for one reference count.
   */
  lemma UnregisterKeeps(r: Reg, id: nat)
    requires Core(r) && Removable(r.xports, id)
    ensures r.count > 0 && Unregister(r, id).Running?
    ensures Core(Without(r, id)) && Removed(r, Without(r, id), id)
  {
    if Master(r.xports, id) {
      UnregisterMasterKeeps(r, id);
      GoneMaster(r.xports, id);
    } else {
      var p := r.xports[id].value.parent.value;
      UnregisterCloneKeeps(r, id, p);
      GoneClone(r.xports, id, p, r.xports[p].value.refcnt - 1);
    }
    hide Core, Gone, Removable;
  }

  // -- a reap pass ------------------------------------------------------------

  function Unmark(r: Reg, id: nat): Reg
    requires r.markCount > 0
  {
    r.(marks := r.marks - {id}, markCount := r.markCount - 1)
  }

  /** The guard of xprt_gc_reap_one: a clone, or nothing refers to it. */
  predicate Unreferenced(xs: Table, id: nat)
    requires Live(xs, id)
  {
    xs[id].value.parent.Some? || xs[id].value.refcnt == 0
  }

  lemma UnreferencedIsRemovable(r: Reg, id: nat)
    requires Core(r) && Live(r.xports, id)
    ensures Unreferenced(r.xports, id) <==> Removable(r.xports, id)
  {
    var n := |Clones(r.xports, id)|;
    assert r.xports[id].value.refcnt == n;
    assert n == 0 <==> Clones(r.xports, id) == {};
  }

  datatype Reaped = Reaped(r: Reg, n: nat)

  /** Looking at one id: a marked transport loses its mark, and goes if it can. */
  function ReapOne(r: Reg, id: nat): (o: Reaped)
    requires Inv(r)
    ensures Inv(o.r) && Size(o.r) == Size(r) && o.r.maxid == r.maxid
  {
    if id !in r.marks || !Live(r.xports, id) then
      assert id in r.marks ==> id in r.ids;
      Reaped(r, 0)
    else if Unreferenced(r.xports, id) then
      UnreferencedIsRemovable(r, id);
      UnregisterKeeps(r, id);
      UnmarkCore(Without(r, id), id);
      Reaped(Unmark(Without(r, id), id), 1)
    else
      UnmarkCore(r, id);
      Reaped(Unmark(r, id), 0)
  }

  /** The three cases. */
  lemma ReapOneCases(r: Reg, id: nat)
    requires Inv(r)
    ensures id in r.marks && Live(r.xports, id) ==> r.markCount > 0
    ensures id !in r.marks || !Live(r.xports, id) ==> ReapOne(r, id) == Reaped(r, 0)
    ensures id in r.marks && Live(r.xports, id) && !Unreferenced(r.xports, id) ==>
      ReapOne(r, id) == Reaped(Unmark(r, id), 0)
    ensures id in r.marks && Live(r.xports, id) && Unreferenced(r.xports, id) ==>
      && |r.socks| == Size(r) && r.count > 0 && Unregister(r, id).Running?
      && Removable(r.xports, id) && Core(Without(r, id)) && Without(r, id).markCount == r.markCount
      && ReapOne(r, id) == Reaped(Unmark(Without(r, id), id), 1)
  {
    if id in r.marks && Live(r.xports, id) {
      UnreferencedIsRemovable(r, id);
      if Unreferenced(r.xports, id) {
        UnregisterKeeps(r, id);
      }
    }
    hide Core, Removable, Gone;
  }

  lemma UnmarkCore(r: Reg, id: nat)
    requires Core(r) && id in r.marks && r.marks - {id} <= r.ids && r.markCount == |r.marks|
    ensures r.markCount > 0 && Inv(Unmark(r, id))
  {
    assert Indexed(Unmark(r, id)) by { hide Parented, Counted, Socketed, Polled; }
    hide Indexed;
  }

  /** The scan over ids, which stops early when no marks are left. */
  function ReapFrom(r: Reg, id: nat): (o: Reaped)
    requires Inv(r)
    ensures Inv(o.r) && Size(o.r) == Size(r) && o.r.maxid == r.maxid
    decreases r.maxid - id
  {
    if id > r.maxid || r.markCount == 0 then Reaped(r, 0)
    else
      var one := ReapOne(r, id);
      var rest := ReapFrom(one.r, id + 1);
      Reaped(rest.r, one.n + rest.n)
  }

  lemma ReapFromCases(r: Reg, id: nat)
    requires Inv(r)
    ensures id > r.maxid || r.markCount == 0 ==> ReapFrom(r, id) == Reaped(r, 0)
    ensures !(id > r.maxid || r.markCount == 0) ==>
      var one := ReapOne(r, id);
      ReapFrom(r, id) == Reaped(ReapFrom(one.r, id + 1).r, one.n + ReapFrom(one.r, id + 1).n)
  {
    hide Inv, ReapOne;
  }

  /** Marked clones go; a marked master goes if each of its clones is marked with a smaller id. */
  ghost predicate Doomed(r: Reg, id: nat) {
    && id in r.marks
    && (Master(r.xports, id) ==> AllEarlier(Clones(r.xports, id), r.marks, id))
  }

  ghost predicate AllEarlier(cs: set<nat>, marks: set<nat>, id: nat) {
    forall c :: c in cs ==> c in marks && c < id
  }

  ghost function DoomedSet(r: Reg): set<nat> {
    set id | id in r.marks && Doomed(r, id)
  }

  /** What looking at one id does. */
  lemma ReapOneEffect(r: Reg, id: nat)
    requires Inv(r)
    ensures var o := ReapOne(r, id);
            && o.n <= 1 && o.r.marks == r.marks - {id}
            && (o.n == 1 <==> id in r.marks && Live(r.xports, id) && Unreferenced(r.xports, id))
            && (o.n == 1 ==> Gone(r.xports, o.r.xports, id) && o.r.ids == r.ids - {id})
            && (o.n == 0 ==> o.r.xports == r.xports && o.r.ids == r.ids)
  {
    assert id in r.marks ==> id in r.ids;
    if id in r.marks && Live(r.xports, id) && Unreferenced(r.xports, id) {
      UnreferencedIsRemovable(r, id);
      UnregisterKeeps(r, id);
    }
    hide Core, Gone, Removable, Inv;
  }

  /** The least id still to be looked at goes exactly when it is doomed. */
  lemma DoomedNow(r: Reg, k: nat)
    requires Inv(r) && forall m :: m in r.marks ==> k <= m
    ensures ReapOne(r, k).n == 1 <==> Doomed(r, k)
  {
    assert k in r.marks ==> k in r.ids && Live(r.xports, k);
    ReapOneEffect(r, k);
    if k in r.marks {
      UnreferencedIsRemovable(r, k);
    }
    hide Inv, Core, ReapOne, Gone;
    if k in r.marks && Master(r.xports, k) && Doomed(r, k) {
      forall c ensures c !in Clones(r.xports, k) {
      }
      assert Clones(r.xports, k) == {};
    }
  }

  /** Taking a clone that is marked off both sets leaves the condition as it was. */
  lemma SameFate(cs: set<nat>, marks: set<nat>, k: nat, id: nat, gone: bool)
    requires k < id && (k in cs ==> (gone <==> k in marks))
    ensures var cs' := if gone then cs - {k} else cs;
            AllEarlier(cs, marks, id) <==> AllEarlier(cs', marks - {k}, id)
  {
    var cs' := if gone then cs - {k} else cs;
    if AllEarlier(cs, marks, id) {
      forall c | c in cs' ensures c in marks - {k} && c < id {
        assert c in cs;
      }
    }
    if AllEarlier(cs', marks - {k}, id) {
      assert k in cs' ==> k in marks - {k};
      forall c | c in cs ensures c in marks && c < id {
        assert c != k ==> c in cs';
      }
    }
  }

  lemma GoneAt(xs: Table, ys: Table, k: nat, id: nat)
    requires Gone(xs, ys, k) && k != id && Live(xs, id)
    ensures Clones(ys, id) == Clones(xs, id) - {k} && (Master(ys, id) <==> Master(xs, id))
  {
    assert Live(ys, id);
  }

  lemma CloneIsUnreferenced(xs: Table, k: nat, id: nat)
    ensures k in Clones(xs, id) ==> Live(xs, k) && Unreferenced(xs, k)
  {
  }

  /** The step does not change the fate of the ids that come later. */
  lemma DoomedLater(r: Reg, k: nat, id: nat)
    requires Inv(r) && k < id && id in r.marks
    ensures Doomed(ReapOne(r, k).r, id) <==> Doomed(r, id)
  {
    var o := ReapOne(r, k);
    assert id in r.ids && Live(r.xports, id);
    ReapOneEffect(r, k);
    hide Inv, Core, ReapOne, Clones, Gone, AllEarlier;
    var cs := Clones(r.xports, id);
    CloneIsUnreferenced(r.xports, k, id);
    if o.n == 1 {
      GoneAt(r.xports, o.r.xports, k, id);
    }
    SameFate(cs, r.marks, k, id, o.n == 1);
  }

  /** Transports that are still there are as they were but for reference counts. */
  ghost predicate Survive(xs: Table, ys: Table) {
    forall j: nat :: Live(ys, j) ==>
      Live(xs, j) && ys[j].value == xs[j].value.(refcnt := ys[j].value.refcnt)
  }

  lemma SurviveSelf(xs: Table)
    ensures Survive(xs, xs)
  {
  }

  lemma SurviveBoth(xs: Table, ys: Table, zs: Table)
    requires Survive(xs, ys) && Survive(ys, zs)
    ensures Survive(xs, zs)
  {
  }

  lemma DoomedIsMarked(r: Reg, k: nat)
    ensures Doomed(r, k) ==> k in r.marks
  {
  }

  lemma DoomedStep(r: Reg, k: nat)
    requires Inv(r) && forall m :: m in r.marks ==> k <= m
    ensures var o := ReapOne(r, k);
            && DoomedSet(r) == DoomedSet(o.r) + (if o.n == 1 then {k} else {})
            && k !in DoomedSet(o.r)
            && o.r.ids == r.ids - (if o.n == 1 then {k} else {})
            && Survive(r.xports, o.r.xports)
  {
    hide Inv, Core, ReapOne, Doomed;
    var o := ReapOne(r, k);
    ReapOneEffect(r, k);
    DoomedNow(r, k);
    forall id | id in r.marks && id != k ensures Doomed(o.r, id) <==> Doomed(r, id) {
      DoomedLater(r, k, id);
    }
    DoomedIsMarked(r, k);
  }

  lemma OneMore(ids: set<nat>, d: set<nat>, k: nat)
    requires k !in d
    ensures ids - (d + {k}) == (ids - {k}) - d && |d + {k}| == |d| + 1
    ensures ids - (d + {}) == (ids - {}) - d && d + {} == d
  {
  }

  lemma NoMarksLeft(r: Reg, k: nat)
    requires Inv(r) && (forall m :: m in r.marks ==> k <= m) && (k > r.maxid || r.markCount == 0)
    ensures r.marks == {} && DoomedSet(r) == {} && r.markCount == 0
  {
    forall m ensures m !in r.marks {
      assert m in r.marks ==> m in r.ids && Live(r.xports, m);
    }
    assert r.marks == {};
  }

  /**
   * The exact effect of a pass.  It removes the doomed transports and no others, it
   * clears every mark, it reports how many it removed, and stopping at a zero counter
   * never skips work.
   */
  lemma {:induction false} ReapFromIsExact(r: Reg, k: nat)
    requires Inv(r) && forall m :: m in r.marks ==> k <= m
    ensures var o := ReapFrom(r, k);
            && o.r.ids == r.ids - DoomedSet(r) && o.n == |DoomedSet(r)|
            && o.r.marks == {} && o.r.markCount == 0
            && Survive(r.xports, o.r.xports)
    decreases r.maxid - k
  {
    hide Inv, Core, ReapOne, DoomedSet, Survive, Gone;
    if k > r.maxid || r.markCount == 0 {
      NoMarksLeft(r, k);
      SurviveSelf(r.xports);
      assert r.ids - {} == r.ids;
    } else {
      var o := ReapOne(r, k);
      ReapOneEffect(r, k);
      DoomedStep(r, k);
      ReapFromIsExact(o.r, k + 1);
      OneMore(r.ids, DoomedSet(o.r), k);
      SurviveBoth(r.xports, o.r.xports, ReapFrom(o.r, k + 1).r.xports);
    }
  }

  /** A whole pass, from the first id. */
  lemma ReapAllIsExact(r: Reg)
    requires Inv(r)
    ensures var o := ReapFrom(r, 0);
            && Inv(o.r) && o.r.ids == r.ids - DoomedSet(r) && o.n == |DoomedSet(r)|
            && o.r.marks == {} && o.r.markCount == 0 && Survive(r.xports, o.r.xports)
  {
    hide Inv;
    ReapFromIsExact(r, 0);
  }
}
