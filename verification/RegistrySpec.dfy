/**
 * The transport registry as a state machine on values: every locked region of the
 * server is one step.  Pointers to transports are their ids, and svc_die ends a run.
 */
module RegistrySpec {
  import opened Bytes

  const EMPTY := -1

  datatype Xprt = Xprt(id: nat, parent: Option<nat>, refcnt: int, sock: nat, port: nat, returned: bool)

  /** Every transport, by id. */
  type Table = seq<Option<Xprt>>

  datatype Reg = Reg(
    xports: Table,
    socks: seq<Option<nat>>,      // sock_xports: the master of each socket, by id
    ids: set<nat>,                // xports_idset
    maxid: int,                   // xports_maxid, -1 before the first registration
    count: nat,                   // xports_count
    poll: seq<int>,               // xports_pollfd
    maxPoll: nat,                 // xports_max_pollfd
    marks: set<nat>,              // xprtgc_idset
    markCount: nat,               // xprtgc_mark_count
    owner: map<nat, nat>          // auxiliary: the master whose registration filled each poll slot
  )

  function Size(r: Reg): nat {
    |r.xports|
  }

  function Init(size: nat): (r: Reg)
    ensures Inv(r) && Size(r) == size
  {
    Reg(seq(size, _ => None), seq(size, _ => None), {}, -1, 0, seq(size, _ => EMPTY), 0, {}, 0, map[])
  }

  predicate Live(xs: Table, id: nat) {
    id < |xs| && xs[id].Some?
  }

  predicate Master(xs: Table, id: nat) {
    Live(xs, id) && xs[id].value.parent.None?
  }

  predicate CloneOf(xs: Table, c: nat, p: nat) {
    Live(xs, c) && xs[c].value.parent == Some(p)
  }

  ghost function Clones(xs: Table, p: nat): set<nat> {
    set c: nat | c < |xs| && CloneOf(xs, c, p)
  }

  // -- the invariant ----------------------------------------------------------

  /** The index, the id set and the counter agree. */
  ghost predicate Indexed(r: Reg) {
    && |r.socks| == |r.poll| == Size(r)
    && -1 <= r.maxid < Size(r)
    && (forall id: nat :: id in r.ids <==> Live(r.xports, id))
    && (forall id: nat :: Live(r.xports, id) ==>
          id <= r.maxid && r.xports[id].value.id == id && r.xports[id].value.sock < Size(r))
    && r.count == |r.ids|
  }

  /** The parent of a live clone is a live master. */
  ghost predicate Parented(xs: Table) {
    forall c: nat, p: nat :: CloneOf(xs, c, p) ==> Master(xs, p)
  }

  /** A reference count is the number of live clones that name the transport. */
  ghost predicate Counted(xs: Table) {
    forall id: nat :: Live(xs, id) ==> xs[id].value.refcnt == |Clones(xs, id)|
  }

  /** A socket entry is a live master on that socket. */
  ghost predicate Socketed(xs: Table, socks: seq<Option<nat>>) {
    forall k :: 0 <= k < |socks| && socks[k].Some? ==>
      Master(xs, socks[k].value) && xs[socks[k].value].value.sock == k
  }

  predicate Occupied(poll: seq<int>, max: nat, s: nat) {
    s < max && s < |poll| && poll[s] != EMPTY
  }

  /** Occupied poll slots belong to different live masters on the sockets they poll. */
  ghost predicate Polled(xs: Table, poll: seq<int>, max: nat, owner: map<nat, nat>) {
    && max <= |poll|
    && (forall s: nat :: s in owner <==> Occupied(poll, max, s))
    && (forall s :: s in owner ==>
          s < |poll| && Master(xs, owner[s]) && xs[owner[s]].value.sock == poll[s])
    && (forall s, t :: s in owner && t in owner && s != t ==> owner[s] != owner[t])
  }

  ghost predicate Core(r: Reg) {
    && Indexed(r) && Parented(r.xports) && Counted(r.xports) && Socketed(r.xports, r.socks)
    && Polled(r.xports, r.poll, r.maxPoll, r.owner)
  }

  /** Marks are on live transports and are counted. */
  ghost predicate Marked(r: Reg) {
    r.marks <= r.ids && r.markCount == |r.marks|
  }

  ghost predicate Inv(r: Reg) {
    Core(r) && Marked(r)
  }

  // -- registration -----------------------------------------------------------

  /** The scan of xprt_id_alloc, from `id` on. */
  function FreeFrom(ids: set<nat>, id: nat, maxid: int): (r: nat)
    ensures forall j: nat :: id <= j < r ==> j in ids
    ensures r <= maxid ==> r !in ids
    ensures id <= maxid + 1 ==> id <= r <= maxid + 1
    decreases maxid - id
  {
    if id > maxid || id !in ids then id else FreeFrom(ids, id + 1, maxid)
  }

  /** The scan of init_pollfd, from `s` on. */
  function EmptyFrom(poll: seq<int>, s: nat, max: nat): (r: nat)
    requires max <= |poll|
    ensures s <= max ==> s <= r <= max && (forall j :: s <= j < r ==> poll[j] != EMPTY)
    ensures r < max ==> poll[r] == EMPTY
    decreases max - s
  {
    if s >= max || poll[s] == EMPTY then s else EmptyFrom(poll, s + 1, max)
  }

  /**
   * Died: svc_die was called.  Overrun: a poll slot past the end was written.  Dangling: a
   * vacated slot was followed.
   */
  datatype Outcome = Running(r: Reg) | Died | Overrun | Dangling

  function AllocId(r: Reg): nat {
    FreeFrom(r.ids, 0, r.maxid)
  }

  function Enter(r: Reg, x: Xprt): Reg
    requires x.id < Size(r)
  {
    r.(xports := r.xports[x.id := Some(x)], ids := r.ids + {x.id}, count := r.count + 1,
       maxid := if x.id > r.maxid then x.id else r.maxid)
  }

  /** A socket can be taken if it has no transport or one that has returned. */
  predicate Available(r: Reg, sock: nat)
    requires sock < |r.socks|
  {
    match r.socks[sock]
    case None => true
    case Some(id) => Live(r.xports, id) && r.xports[id].value.returned
  }

  function TakeSlot(r: Reg, s: nat, sock: nat, id: nat): Reg
    requires s < |r.poll|
  {
    r.(poll := r.poll[s := sock], maxPoll := if s == r.maxPoll then s + 1 else r.maxPoll,
       owner := r.owner[s := id])
  }

  /** Registering a transport of its own on a socket. */
  function RegisterMaster(r: Reg, sock: nat, port: nat): (o: Outcome)
    requires sock < |r.socks| == |r.poll| == Size(r) && r.maxPoll <= Size(r)
  {
    var id := AllocId(r);
    if id >= Size(r) then Died
    else
      var r1 := Enter(r, Xprt(id, None, 0, sock, port, false));
      if !Available(r1, sock) then Died
      else
        var r2 := r1.(socks := r1.socks[sock := Some(id)]);
        var s := EmptyFrom(r2.poll, 0, r2.maxPoll);
        if s == r2.maxPoll && r2.maxPoll > |r2.poll| then Died
        else if s >= |r2.poll| then Overrun
        else Running(TakeSlot(r2, s, sock, id))
  }

  function AddRef(r: Reg, p: nat, d: int): Reg
    requires Live(r.xports, p)
  {
    var x := r.xports[p].value;
    r.(xports := r.xports[p := Some(x.(refcnt := x.refcnt + d))])
  }

  /** Registering a clone of a transport. */
  function RegisterClone(r: Reg, p: nat): (o: Outcome)
    requires Live(r.xports, p)
  {
    var id := AllocId(r);
    if id >= Size(r) then Died
    else
      var x := r.xports[p].value;
      var r1 := Enter(r, Xprt(id, Some(p), 0, x.sock, x.port, false));
      if !Live(r1.xports, p) then Dangling else Running(AddRef(r1, p, 1))
  }

  // -- removal ----------------------------------------------------------------

  /** Afterwards nothing polls the socket, and every other socket is polled where it was. */
  function PollRemove(poll: seq<int>, max: nat, sock: int): (p: seq<int>)
    ensures |p| == |poll|
    ensures sock != EMPTY ==> forall s: nat :: Occupied(p, max, s) ==> p[s] != sock
    ensures forall s: nat :: Occupied(poll, max, s) && poll[s] != sock ==> Occupied(p, max, s) && p[s] == poll[s]
  {
    seq(|poll|, i requires 0 <= i < |poll| => if i < max && poll[i] == sock then EMPTY else poll[i])
  }

  function Vacate(r: Reg, id: nat): Reg
    requires id < Size(r) && r.count > 0
  {
    r.(xports := r.xports[id := None], ids := r.ids - {id}, count := r.count - 1)
  }

  /** Taking a transport out of the registry. */
  function Unregister(r: Reg, id: nat): (o: Outcome)
    requires |r.socks| == Size(r) && r.count > 0
  {
    if !Live(r.xports, id) then Died
    else
      var x := r.xports[id].value;
      match x.parent
      case None =>
        if x.sock >= |r.socks| then Died
        else
          var r1 := r.(poll := PollRemove(r.poll, r.maxPoll, x.sock), socks := r.socks[x.sock := None],
                       owner := map s | s in r.owner && s < |r.poll| && r.poll[s] != x.sock :: r.owner[s]);
          Running(Vacate(r1, id))
      case Some(p) =>
        if !Live(r.xports, p) then Dangling else Running(Vacate(AddRef(r, p, -1), id))
  }
}
