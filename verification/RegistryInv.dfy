/** Every step of the registry keeps its invariant and stays inside its tables. */
module RegistryInv {
  import opened Bytes
  import opened RegistrySpec

  // -- counting ---------------------------------------------------------------

  lemma {:induction false} SubsetOfRange(s: set<nat>, n: nat)
    requires forall i :: i in s ==> i < n
    ensures |s| <= n
    decreases n
  {
    if n == 0 {
      assert s == {};
    } else {
      SubsetOfRange(s - {n - 1}, n - 1);
    }
  }

  /** As many owners as slots: different slots have different owners. */
  lemma {:induction false} Pigeonhole(owner: map<nat, nat>, n: nat, s: set<nat>)
    requires forall i: nat :: i < n ==> i in owner && owner[i] in s
    requires forall i, j :: i in owner && j in owner && i != j ==> owner[i] != owner[j]
    ensures n <= |s|
    decreases n
  {
    if n > 0 {
      Pigeonhole(owner, n - 1, s - {owner[n - 1]});
    }
  }

  /** xprt_id_alloc returns the least free id. */
  lemma AllocIsLeastFree(r: Reg)
    requires Indexed(r)
    ensures AllocId(r) !in r.ids && forall j: nat :: j < AllocId(r) ==> j in r.ids
    ensures AllocId(r) <= r.maxid + 1
  {
  }

  // -- tables -----------------------------------------------------------------

  /** A transport entered in a free place leaves the others alone. */
  lemma AddClones(xs: Table, x: Xprt, q: nat)
    requires x.id < |xs| && xs[x.id].None?
    ensures Clones(xs[x.id := Some(x)], q) == Clones(xs, q) + if x.parent == Some(q) then {x.id} else {}
  {
    var ys := xs[x.id := Some(x)];
    assert forall c: nat :: c != x.id ==> (CloneOf(ys, c, q) <==> CloneOf(xs, c, q));
  }

  lemma AddParented(xs: Table, x: Xprt)
    requires x.id < |xs| && xs[x.id].None? && Parented(xs)
    requires x.parent.Some? ==> Master(xs, x.parent.value)
    ensures Parented(xs[x.id := Some(x)])
  {
    var ys := xs[x.id := Some(x)];
    forall c: nat, p: nat | CloneOf(ys, c, p) ensures Master(ys, p) {
      if c != x.id {
        assert CloneOf(xs, c, p);
      }
    }
  }

  lemma NoOrphans(xs: Table, id: nat)
    requires Parented(xs) && !Live(xs, id)
    ensures Clones(xs, id) == {}
  {
    forall c: nat ensures !CloneOf(xs, c, id) {
    }
  }

  lemma AddMasterCounted(xs: Table, x: Xprt)
    requires x.id < |xs| && xs[x.id].None? && Parented(xs) && Counted(xs)
    requires x.parent.None? && x.refcnt == 0
    ensures Counted(xs[x.id := Some(x)])
  {
    var ys := xs[x.id := Some(x)];
    forall q: nat | Live(ys, q) ensures ys[q].value.refcnt == |Clones(ys, q)| {
      AddClones(xs, x, q);
      if q == x.id {
        NoOrphans(xs, q);
      } else {
        assert Live(xs, q);
      }
    }
  }

  lemma AddSocketed(xs: Table, x: Xprt, socks: seq<Option<nat>>)
    requires x.id < |xs| && xs[x.id].None? && Socketed(xs, socks)
    ensures Socketed(xs[x.id := Some(x)], socks)
  {
  }

  lemma AddPolled(xs: Table, x: Xprt, poll: seq<int>, max: nat, owner: map<nat, nat>)
    requires x.id < |xs| && xs[x.id].None? && Polled(xs, poll, max, owner)
    ensures Polled(xs[x.id := Some(x)], poll, max, owner)
    ensures forall s :: s in owner ==> owner[s] != x.id
  {
    var ys := xs[x.id := Some(x)];
    forall s | s in owner ensures Master(ys, owner[s]) && owner[s] != x.id {
      assert Master(xs, owner[s]);
    }
  }

  /** Changing a reference count changes no relation between transports. */
  lemma RefClones(xs: Table, p: nat, n: int, q: nat)
    requires Live(xs, p)
    ensures Clones(xs[p := Some(xs[p].value.(refcnt := n))], q) == Clones(xs, q)
  {
    var ys := xs[p := Some(xs[p].value.(refcnt := n))];
    assert forall c: nat :: CloneOf(ys, c, q) <==> CloneOf(xs, c, q);
  }

  lemma RefKeeps(xs: Table, p: nat, n: int, socks: seq<Option<nat>>,
                 poll: seq<int>, max: nat, owner: map<nat, nat>)
    requires Live(xs, p) && Parented(xs) && Socketed(xs, socks) && Polled(xs, poll, max, owner)
    ensures var ys := xs[p := Some(xs[p].value.(refcnt := n))];
            Parented(ys) && Socketed(ys, socks) && Polled(ys, poll, max, owner)
  {
    var ys := xs[p := Some(xs[p].value.(refcnt := n))];
    assert forall m: nat :: Master(ys, m) <==> Master(xs, m);
    forall c: nat, q: nat | CloneOf(ys, c, q) ensures Master(ys, q) {
      assert CloneOf(xs, c, q);
    }
  }

  // -- registering a master ---------------------------------------------------

  lemma EnterIndexed(r: Reg, x: Xprt)
    requires Indexed(r) && x.id !in r.ids && x.id < Size(r) && x.sock < Size(r)
    ensures Indexed(Enter(r, x)) && r.xports[x.id].None?
  {
    var r' := Enter(r, x);
    assert forall id: nat :: id != x.id ==> (Live(r'.xports, id) <==> Live(r.xports, id));
    assert !Live(r.xports, x.id);
  }

  lemma EnterCore(r: Reg, x: Xprt)
    requires Core(r) && x.id !in r.ids && x.id < Size(r) && x.sock < Size(r)
    requires x.parent.None? && x.refcnt == 0
    ensures Core(Enter(r, x))
    ensures forall s :: s in r.owner ==> r.owner[s] != x.id
  {
    EnterIndexed(r, x);
    AddParented(r.xports, x);
    AddMasterCounted(r.xports, x);
    AddSocketed(r.xports, x, r.socks);
    AddPolled(r.xports, x, r.poll, r.maxPoll, r.owner);
    hide Indexed, Parented, Counted, Socketed, Polled;
  }

  lemma TakeSlotPolled(r: Reg, s: nat, sock: nat, id: nat)
    requires Polled(r.xports, r.poll, r.maxPoll, r.owner)
    requires Master(r.xports, id) && r.xports[id].value.sock == sock
    requires s < |r.poll| && s <= r.maxPoll && !Occupied(r.poll, r.maxPoll, s)
    requires forall t :: t in r.owner ==> r.owner[t] != id
    ensures var r' := TakeSlot(r, s, sock, id); Polled(r'.xports, r'.poll, r'.maxPoll, r'.owner)
  {
    var r' := TakeSlot(r, s, sock, id);
    forall t: nat ensures t in r'.owner <==> Occupied(r'.poll, r'.maxPoll, t) {
      assert t != s ==> (Occupied(r'.poll, r'.maxPoll, t) <==> Occupied(r.poll, r.maxPoll, t));
    }
  }

  lemma SocketCore(r: Reg, sock: nat, id: nat)
    requires Core(r) && sock < Size(r) && Master(r.xports, id) && r.xports[id].value.sock == sock
    ensures Core(r.(socks := r.socks[sock := Some(id)]))
  {
    assert Indexed(r.(socks := r.socks[sock := Some(id)]));
    hide Indexed, Parented, Counted, Polled;
  }

  lemma SlotCore(r: Reg, s: nat, sock: nat, id: nat)
    requires Core(r) && Master(r.xports, id) && r.xports[id].value.sock == sock
    requires s < |r.poll| && s <= r.maxPoll && !Occupied(r.poll, r.maxPoll, s)
    requires forall t :: t in r.owner ==> r.owner[t] != id
    ensures Core(TakeSlot(r, s, sock, id))
  {
    TakeSlotPolled(r, s, sock, id);
    assert Indexed(TakeSlot(r, s, sock, id));
    hide Indexed, Parented, Counted, Socketed, Polled;
  }

  /** The next poll slot is inside the table: full slots have owners, and ids are limited. */
  lemma PollSlotInBounds(r: Reg)
    requires Core(r) && AllocId(r) < Size(r)
    ensures EmptyFrom(r.poll, 0, r.maxPoll) < Size(r)
  {
    var s := EmptyFrom(r.poll, 0, r.maxPoll);
    if s == r.maxPoll {
      AllocIsLeastFree(r);
      forall i: nat | i < s ensures i in r.owner && r.owner[i] in r.ids {
        assert Occupied(r.poll, r.maxPoll, i);
        assert Live(r.xports, r.owner[i]);
      }
      Pigeonhole(r.owner, s, r.ids);
      forall i | i in r.ids ensures i < Size(r) {
        assert Live(r.xports, i);
      }
      SubsetOfRange(r.ids + {AllocId(r)}, Size(r));
    }
  }

  /** What registering a master does when it succeeds. */
  lemma RegisteredMaster(r: Reg, sock: nat, port: nat)
    requires Core(r) && sock < Size(r) && AllocId(r) < Size(r) && Available(r, sock)
    ensures var o := RegisterMaster(r, sock, port);
            var id := AllocId(r);
            && o.Running? && Core(o.r)
            && o.r.xports == r.xports[id := Some(Xprt(id, None, 0, sock, port, false))]
            && o.r.ids == r.ids + {id} && id !in r.ids
            && o.r.socks == r.socks[sock := Some(id)]
            && o.r.owner == r.owner[EmptyFrom(r.poll, 0, r.maxPoll) := id]
            && o.r.marks == r.marks && o.r.markCount == r.markCount
  {
    var id := AllocId(r);
    AllocIsLeastFree(r);
    PollSlotInBounds(r);
    var x := Xprt(id, None, 0, sock, port, false);
    EnterCore(r, x);
    assert r.xports[id].None? by { assert !Live(r.xports, id); }
    var r1 := Enter(r, x);
    var s := EmptyFrom(r.poll, 0, r.maxPoll);
    var r2 := r1.(socks := r1.socks[sock := Some(id)]);
    hide Core;
    SocketCore(r1, sock, id);
    SlotCore(r2, s, sock, id);
  }

  /** Registering a master keeps the invariant; it dies only for want of an id or a free socket. */
  lemma RegisterMasterKeeps(r: Reg, sock: nat, port: nat)
    requires Inv(r) && sock < Size(r)
    ensures var o := RegisterMaster(r, sock, port);
            && (o.Running? <==> AllocId(r) < Size(r) && Available(r, sock))
            && (o.Running? ==> Inv(o.r) && Size(o.r) == Size(r))
            && (!o.Running? ==> o.Died?)
  {
    if AllocId(r) < Size(r) {
      AllocIsLeastFree(r);
      assert !Live(r.xports, AllocId(r));
      if Available(r, sock) {
        RegisteredMaster(r, sock, port);
      } else {
        hide Core;
        assert !Available(Enter(r, Xprt(AllocId(r), None, 0, sock, port, false)), sock);
      }
    }
  }

  /** The least id without a transport. */
  ghost predicate LeastFree(xs: Table, id: nat) {
    id < |xs| && xs[id].None? && forall j: nat :: j < id ==> xs[j].Some?
  }

  /** An id can be had exactly when some place in the table is empty, and then it is the least. */
  lemma AllocFits(r: Reg)
    requires Indexed(r)
    ensures AllocId(r) < Size(r) <==> exists id: nat :: LeastFree(r.xports, id)
    ensures AllocId(r) < Size(r) <==> exists id: nat :: id < Size(r) && r.xports[id].None?
    ensures AllocId(r) < Size(r) ==> LeastFree(r.xports, AllocId(r))
  {
    AllocIsLeastFree(r);
    forall id: nat ensures id in r.ids <==> id < Size(r) && r.xports[id].Some? {
      assert id in r.ids <==> Live(r.xports, id);
    }
    hide AllocId;
    if AllocId(r) < Size(r) {
      assert LeastFree(r.xports, AllocId(r));
    }
  }

  /**
   * A socket can be registered exactly when some id is free and the transport that has the
   * socket, if there is one, has returned.  Otherwise the server dies.
   */
  lemma RegistrationRunsIff(r: Reg, sock: nat, port: nat)
    requires Inv(r) && sock < Size(r)
    ensures |r.socks| == Size(r)
    ensures r.socks[sock].Some? ==> r.socks[sock].value < Size(r) && r.xports[r.socks[sock].value].Some?
    ensures RegisterMaster(r, sock, port).Running? <==>
            && (exists id: nat :: id < Size(r) && r.xports[id].None?)
            && (r.socks[sock].Some? ==> r.xports[r.socks[sock].value].value.returned)
    ensures !RegisterMaster(r, sock, port).Running? ==> RegisterMaster(r, sock, port) == Died
  {
    RegisterMasterKeeps(r, sock, port);
    AllocFits(r);
    assert r.socks[sock].Some? ==> Master(r.xports, r.socks[sock].value);
    hide Inv, Core, RegisterMaster, AllocId;
  }

  // -- registering a clone ----------------------------------------------------

  lemma AddCloneCounted(xs: Table, x: Xprt, p: nat)
    requires x.id < |xs| && xs[x.id].None? && Parented(xs) && Counted(xs)
    requires x.parent == Some(p) && x.refcnt == 0 && Master(xs, p)
    ensures var ys := xs[x.id := Some(x)]; Counted(ys[p := Some(ys[p].value.(refcnt := ys[p].value.refcnt + 1))])
  {
    var ys := xs[x.id := Some(x)];
    var n := ys[p].value.refcnt + 1;
    var zs := ys[p := Some(ys[p].value.(refcnt := n))];
    forall q: nat | Live(zs, q) ensures zs[q].value.refcnt == |Clones(zs, q)| {
      RefClones(ys, p, n, q);
      AddClones(xs, x, q);
      assert x.id !in Clones(xs, q);
      if q == x.id {
        NoOrphans(xs, q);
      } else {
        assert Live(xs, q);
      }
    }
  }

  /** What registering a clone of a live master does: it cannot follow a vacated slot. */
  lemma RegisteredClone(r: Reg, p: nat)
    requires Core(r) && Master(r.xports, p) && AllocId(r) < Size(r)
    ensures var o := RegisterClone(r, p);
            var id := AllocId(r);
            && o.Running? && Core(o.r) && Size(o.r) == Size(r)
            && o.r.ids == r.ids + {id} && id !in r.ids && CloneOf(o.r.xports, id, p)
            && o.r.socks == r.socks && o.r.poll == r.poll && o.r.owner == r.owner
            && o.r.marks == r.marks && o.r.markCount == r.markCount
            && Master(o.r.xports, p) && o.r.xports[p].value.sock == r.xports[p].value.sock
            && forall j: nat :: j != id && j != p && j < Size(r) ==> o.r.xports[j] == r.xports[j]
  {
    var id := AllocId(r);
    AllocIsLeastFree(r);
    assert !Live(r.xports, id) && r.xports[p].value.sock < Size(r);
    hide Core, AllocId;
    CloneEntered(r, Xprt(id, Some(p), 0, r.xports[p].value.sock, r.xports[p].value.port, false), p);
  }

  /** The clone is on the socket and the port of its parent, and its parent counts it. */
  lemma ClonedTable(r: Reg, p: nat)
    requires Core(r) && Master(r.xports, p) && AllocId(r) < Size(r)
    ensures RegisterClone(r, p).Running?
    ensures var x, id := r.xports[p].value, AllocId(r);
            RegisterClone(r, p).r.xports ==
            r.xports[id := Some(Xprt(id, Some(p), 0, x.sock, x.port, false))][p := Some(x.(refcnt := x.refcnt + 1))]
  {
    AllocIsLeastFree(r);
    assert !Live(r.xports, AllocId(r));
    hide Core, AllocId;
  }

  lemma CloneEntered(r: Reg, x: Xprt, p: nat)
    requires Core(r) && Master(r.xports, p) && x.id !in r.ids && x.id < Size(r)
    requires x.parent == Some(p) && x.refcnt == 0 && x.sock < Size(r)
    ensures Live(Enter(r, x).xports, p) && Core(AddRef(Enter(r, x), p, 1))
  {
    hide Indexed, Parented, Counted, Socketed, Polled;
    var r1 := Enter(r, x);
    EnterIndexed(r, x);
    AddParented(r.xports, x);
    AddSocketed(r.xports, x, r.socks);
    AddPolled(r.xports, x, r.poll, r.maxPoll, r.owner);
    AddCloneCounted(r.xports, x, p);
    RefKeeps(r1.xports, p, r1.xports[p].value.refcnt + 1, r.socks, r.poll, r.maxPoll, r.owner);
    AddRefIndexed(r1, p, 1);
  }

  lemma AddRefIndexed(r: Reg, p: nat, d: int)
    requires Indexed(r) && Live(r.xports, p)
    ensures Indexed(AddRef(r, p, d))
  {
    assert forall id: nat :: Live(AddRef(r, p, d).xports, id) <==> Live(r.xports, id);
  }

  lemma RegisterCloneKeeps(r: Reg, p: nat)
    requires Inv(r) && Master(r.xports, p)
    ensures var o := RegisterClone(r, p);
            && (o.Running? <==> AllocId(r) < Size(r))
            && (o.Running? ==> Inv(o.r) && Size(o.r) == Size(r))
            && (!o.Running? ==> o.Died?)
  {
    if AllocId(r) < Size(r) {
      RegisteredClone(r, p);
    }
  }
}
