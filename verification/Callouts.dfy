/** The services a server offers: the callout list, and how a request is matched with it. */
module Callouts {
  import opened Bytes

  datatype Service = Service(prog: word, vers: word, dispatch: nat, mapped: bool)

  // -- the list as a value, most recent first ---------------------------------

  predicate Is(s: Service, prog: word, vers: word) {
    s.prog == prog && s.vers == vers
  }

  /** The position of a program and version, or the length of the list. */
  function IndexOf(l: seq<Service>, prog: word, vers: word): (i: nat)
    ensures i <= |l| && (i < |l| ==> Is(l[i], prog, vers))
    ensures forall j :: 0 <= j < i ==> !Is(l[j], prog, vers)
  {
    if l == [] || Is(l[0], prog, vers) then 0 else 1 + IndexOf(l[1..], prog, vers)
  }

  ghost predicate NoDuplicates(l: seq<Service>) {
    forall i, j :: 0 <= i < j < |l| ==> !Is(l[i], l[j].prog, l[j].vers)
  }

  /**
   * Registering: refused if the pair is taken by another dispatcher.  `protocol` asks for
   * the port mapper, which answers `granted`.
   */
  function AddTo(l: seq<Service>, prog: word, vers: word, dispatch: nat, protocol: bool, granted: bool)
    : (r: (bool, seq<Service>))
  {
    var i := IndexOf(l, prog, vers);
    if i < |l| && l[i].dispatch != dispatch then (false, l)
    else
      var (k, m) := if i < |l| then (i, l) else (0, [Service(prog, vers, dispatch, false)] + l);
      if !protocol then (true, m)
      else if !granted then (false, m)
      else (true, m[k := m[k].(mapped := true)])
  }

  function RemoveFrom(l: seq<Service>, prog: word, vers: word): (r: seq<Service>) {
    var i := IndexOf(l, prog, vers);
    if i < |l| then l[..i] + l[i + 1..] else l
  }

  /** Registering keeps every pair unique, and the pair is there afterwards unless it was refused. */
  lemma RegisterKeepsUnique(l: seq<Service>, prog: word, vers: word, dispatch: nat, protocol: bool, granted: bool)
    requires NoDuplicates(l)
    ensures var (ok, m) := AddTo(l, prog, vers, dispatch, protocol, granted);
            && NoDuplicates(m)
            && (ok ==> exists i :: 0 <= i < |m| && Is(m[i], prog, vers) && m[i].dispatch == dispatch)
  {
    var i := IndexOf(l, prog, vers);
    var (ok, m) := AddTo(l, prog, vers, dispatch, protocol, granted);
    if i == |l| {
      assert Is(m[0], prog, vers);
    } else {
      assert ok ==> Is(m[i], prog, vers);
    }
  }

  /**
   * Registering fails exactly when another dispatcher has the pair, and then nothing
   * changes, or when the port mapper is asked and refuses.  Otherwise the pair is listed
   * with its dispatcher; it counts as mapped if it was or has just been.  No other service
   * comes or goes.
   */
  lemma RegisterExactly(l: seq<Service>, prog: word, vers: word, dispatch: nat, protocol: bool, granted: bool)
    requires NoDuplicates(l)
    ensures var (ok, m) := AddTo(l, prog, vers, dispatch, protocol, granted);
            var taken := exists s :: s in l && s.prog == prog && s.vers == vers && s.dispatch != dispatch;
            var was := exists s :: s in l && s.prog == prog && s.vers == vers && s.mapped;
            && (ok <==> !taken && (protocol ==> granted))
            && (taken ==> m == l)
            && (!taken ==> Service(prog, vers, dispatch, was || (protocol && granted)) in m)
            && (forall s: Service :: s.prog != prog || s.vers != vers ==> (s in m <==> s in l))
  {
    var i := IndexOf(l, prog, vers);
    var (ok, m) := AddTo(l, prog, vers, dispatch, protocol, granted);
    forall s | s in l && s.prog == prog && s.vers == vers ensures i < |l| && s == l[i] {
      var j :| 0 <= j < |l| && l[j] == s;
      assert Is(l[j], prog, vers);
      assert j >= i;
    }
    if i < |l| {
      assert l[i] in l;
      if l[i].dispatch == dispatch {
        assert m[i] in m && |m| == |l| && forall j :: 0 <= j < |l| && j != i ==> m[j] == l[j];
        forall s: Service | s.prog != prog || s.vers != vers ensures s in m <==> s in l {
          if s in l {
            var j :| 0 <= j < |l| && l[j] == s;
            assert m[j] == s;
          }
        }
      }
    } else {
      assert m[0] in m && m[1..] == l && m == [m[0]] + l;
    }
  }

  /** Unregistering removes the pair and nothing else. */
  lemma UnregisterRemoves(l: seq<Service>, prog: word, vers: word)
    requires NoDuplicates(l)
    ensures var m := RemoveFrom(l, prog, vers);
            && NoDuplicates(m)
            && (forall s :: s in m <==> s in l && !Is(s, prog, vers))
            && IndexOf(m, prog, vers) == |m|
  {
    var i, m := IndexOf(l, prog, vers), RemoveFrom(l, prog, vers);
    if i < |l| {
      forall j | 0 <= j < |m| ensures !Is(m[j], prog, vers) && m[j] in l {
        assert m[j] == if j < i then l[j] else l[j + 1];
      }
      forall s | s in l && !Is(s, prog, vers) ensures s in m {
        var j :| 0 <= j < |l| && l[j] == s;
        assert s == if j < i then m[j] else m[j - 1];
      }
    }
  }

  datatype Action =
    | Add(prog: word, vers: word, dispatch: nat, protocol: bool, granted: bool)
    | Remove(prog: word, vers: word)

  function Run(l: seq<Service>, actions: seq<Action>): (r: seq<Service>)
    decreases actions
  {
    if actions == [] then l
    else match actions[0]
      case Add(p, v, d, protocol, granted) => Run(AddTo(l, p, v, d, protocol, granted).1, actions[1..])
      case Remove(p, v) => Run(RemoveFrom(l, p, v), actions[1..])
  }

  /** Over any run of registrations and removals no program and version is listed twice. */
  lemma {:induction false} RunsKeepUnique(l: seq<Service>, actions: seq<Action>)
    requires NoDuplicates(l)
    ensures NoDuplicates(Run(l, actions))
    decreases actions
  {
    if actions != [] {
      match actions[0]
      case Add(p, v, d, protocol, granted) =>
        RegisterKeepsUnique(l, p, v, d, protocol, granted);
        RunsKeepUnique(AddTo(l, p, v, d, protocol, granted).1, actions[1..]);
      case Remove(p, v) =>
        UnregisterRemoves(l, p, v);
        RunsKeepUnique(RemoveFrom(l, p, v), actions[1..]);
    }
  }

  // -- matching a request -----------------------------------------------------

  datatype Answer = Dispatch(to: nat) | NoProgram | Mismatch(low: word, high: word)

  ghost predicate Offers(l: seq<Service>, prog: word) {
    exists i :: 0 <= i < |l| && l[i].prog == prog
  }

  ghost predicate Bounds(l: seq<Service>, prog: word, low: word, high: word) {
    && (exists i :: 0 <= i < |l| && l[i].prog == prog && l[i].vers == low)
    && (exists i :: 0 <= i < |l| && l[i].prog == prog && l[i].vers == high)
    && (forall i :: 0 <= i < |l| && l[i].prog == prog ==> low <= l[i].vers <= high)
  }

  // -- the linked list --------------------------------------------------------

  class Callout {
    const prog: word
    const vers: word
    const dispatch: nat
    var mapped: bool
    var next: Callout?

    constructor (prog: word, vers: word, dispatch: nat, next: Callout?)
      ensures this.prog == prog && this.vers == vers && this.dispatch == dispatch
      ensures !mapped && this.next == next
    {
      this.prog, this.vers, this.dispatch, this.mapped, this.next := prog, vers, dispatch, false, next;
    }

    function Value(): Service
      reads `mapped
    {
      Service(prog, vers, dispatch, mapped)
    }
  }

  ghost function At(nodes: seq<Callout>, i: nat): Callout? {
    if i < |nodes| then nodes[i] else null
  }

  ghost function All(nodes: seq<Callout>): set<Callout> {
    set s | s in nodes
  }

  lemma SkipAt(nodes: seq<Callout>, i: nat)
    requires i < |nodes|
    ensures var rest := nodes[..i] + nodes[i + 1..];
            forall k: nat :: At(rest, k) == At(nodes, if k < i then k else k + 1)
  {
  }

  lemma BoundsOf(l: seq<Service>, prog: word, lowAt: nat, highAt: nat)
    requires lowAt < |l| && highAt < |l| && l[lowAt].prog == prog == l[highAt].prog
    requires forall j :: 0 <= j < |l| && l[j].prog == prog ==> l[lowAt].vers <= l[j].vers <= l[highAt].vers
    ensures Bounds(l, prog, l[lowAt].vers, l[highAt].vers) && Offers(l, prog)
  {
  }

  lemma RemoveAt(l: seq<Service>, prog: word, vers: word)
    requires NoDuplicates(l)
    ensures var i, m := IndexOf(l, prog, vers), RemoveFrom(l, prog, vers);
            && m == (if i < |l| then l[..i] + l[i + 1..] else l)
            && NoDuplicates(m) && IndexOf(m, prog, vers) == |m|
  {
    UnregisterRemoves(l, prog, vers);
    hide NoDuplicates, IndexOf;
  }

  /** The pointers lead through the nodes in order. */
  ghost predicate Linked(head: Callout?, nodes: seq<Callout>)
    reads nodes`next
  {
    && head == At(nodes, 0)
    && (forall i :: 0 <= i < |nodes| ==> nodes[i].next == At(nodes, i + 1))
    && (forall i, j :: 0 <= i < j < |nodes| ==> nodes[i] != nodes[j])
  }

  /** The nodes hold the services of a list. */
  ghost predicate Hold(nodes: seq<Callout>, l: seq<Service>)
    reads nodes`mapped
  {
    |nodes| == |l| && forall i :: 0 <= i < |nodes| ==> nodes[i].Value() == l[i]
  }

  lemma LinkedAt(head: Callout?, nodes: seq<Callout>, i: nat)
    requires Linked(head, nodes)
    ensures head == At(nodes, 0) && (i < |nodes| ==> nodes[i].next == At(nodes, i + 1))
  {
  }

  lemma HoldAt(nodes: seq<Callout>, l: seq<Service>, i: nat)
    requires Hold(nodes, l)
    ensures |nodes| == |l| && (i < |nodes| ==> nodes[i].Value() == l[i])
  {
  }

  class List {
    var head: Callout?
    ghost var nodes: seq<Callout>
    ghost var services: seq<Service>    // what the list offers, most recent first

    ghost predicate Valid()
      reads this, nodes
    {
      Linked(head, nodes) && Hold(nodes, services) && NoDuplicates(services)
    }

    constructor ()
      ensures Valid() && services == [] && nodes == []
    {
      head, nodes, services := null, [], [];
    }

    /** Finds a program and version, with the callout before it. */
    method Find(prog: word, vers: word) returns (s: Callout?, prev: Callout?, ghost i: nat)
      requires Valid()
      ensures |nodes| == |services| && i == IndexOf(services, prog, vers)
      ensures s == At(nodes, IndexOf(services, prog, vers))
      ensures prev == if IndexOf(services, prog, vers) == 0 then null else nodes[IndexOf(services, prog, vers) - 1]
    {
      hide Linked, Hold;
      prev, s, i := null, head, 0;
      assert services[0..] == services;
      LinkedAt(head, nodes, 0);
      HoldAt(nodes, services, 0);
      while s != null && !(s.prog == prog && s.vers == vers)
        invariant 0 <= i <= |nodes| && s == At(nodes, i)
        invariant prev == if i == 0 then null else nodes[i - 1]
        invariant IndexOf(services, prog, vers) == i + IndexOf(services[i..], prog, vers)
        decreases |nodes| - i
      {
        LinkedAt(head, nodes, i);
        HoldAt(nodes, services, i);
        assert services[i..][1..] == services[i + 1..];
        prev, s, i := s, s.next, i + 1;
      }
      HoldAt(nodes, services, i);
    }

    /** Whether a program and version is listed and known to the port mapper. */
    method IsMapped(prog: word, vers: word) returns (b: bool)
      requires Valid()
      ensures b <==> var i := IndexOf(services, prog, vers); i < |services| && services[i].mapped
    {
      hide IndexOf, Linked, Hold;
      var s, prev;
      ghost var i;
      s, prev, i := Find(prog, vers);
      HoldAt(nodes, services, i);
      return s != null && s.mapped;
    }

    /** Puts a new callout at the front. */
    method Prepend(prog: word, vers: word, dispatch: nat) returns (s: Callout)
      requires Valid() && IndexOf(services, prog, vers) == |services|
      modifies this
      ensures Valid() && fresh(s) && nodes == [s] + old(nodes)
      ensures services == [Service(prog, vers, dispatch, false)] + old(services)
    {
      s := new Callout(prog, vers, dispatch, head);
      head := s;
      nodes := [s] + nodes;
      services := [Service(prog, vers, dispatch, false)] + services;
    }

    method SetMapped(s: Callout, ghost i: nat)
      requires Valid() && i < |nodes| && nodes[i] == s
      modifies s`mapped, `services
      ensures Valid() && i < |old(services)| && services == old(services)[i := old(services)[i].(mapped := true)]
    {
      s.mapped := true;
      services := services[i := services[i].(mapped := true)];
    }

    /** Finds or makes the callout of a pair, and has it mapped if the port mapper is asked and grants it. */
    method Enroll(prog: word, vers: word, dispatch: nat, protocol: bool, granted: bool) returns (ok: bool)
      requires Valid()
      modifies this, All(nodes)`mapped
      ensures Valid()
      ensures (ok, services) == AddTo(old(services), prog, vers, dispatch, protocol, granted)
      ensures forall s :: s in nodes ==> s in old(nodes) || fresh(s)
    {
      hide IndexOf, Linked, Hold, NoDuplicates;
      var s, prev;
      ghost var i;
      s, prev, i := Find(prog, vers);
      HoldAt(nodes, services, i);
      if s != null {
        if s.dispatch != dispatch {
          return false;
        }
      } else {
        s := Prepend(prog, vers, dispatch);
        i := 0;
      }
      if protocol {
        if !granted {
          return false;
        }
        SetMapped(s, i);
      }
      return true;
    }

    /** Registers a dispatcher; `granted` is the port mapper's answer if it is asked. */
    method Register(prog: word, vers: word, dispatch: nat, protocol: bool, granted: bool) returns (ok: bool)
      requires Valid()
      modifies this, All(nodes)`mapped
      ensures Valid()
      ensures (ok, services) == AddTo(old(services), prog, vers, dispatch, protocol, granted)
      ensures ok <==>
              && !(exists s :: s in old(services) && s.prog == prog && s.vers == vers && s.dispatch != dispatch)
              && (protocol ==> granted)
      ensures ok ==> exists s :: s in services && s.prog == prog && s.vers == vers && s.dispatch == dispatch
      ensures forall s: Service :: s.prog != prog || s.vers != vers ==> (s in services <==> s in old(services))
      ensures forall s :: s in nodes ==> s in old(nodes) || fresh(s)
    {
      hide IndexOf, Linked, Hold, NoDuplicates, AddTo;
      ok := Enroll(prog, vers, dispatch, protocol, granted);
      RegisterExactly(old(services), prog, vers, dispatch, protocol, granted);
      assert old(NoDuplicates(services));
    }

    /** Makes the pointer to a callout skip it. */
    method Unlink(s: Callout, prev: Callout?, ghost i: nat)
      requires Linked(head, nodes) && i < |nodes| && nodes[i] == s
      requires prev == if i == 0 then null else nodes[i - 1]
      modifies `head, `nodes, All(nodes)`next
      ensures nodes == old(nodes)[..i] + old(nodes)[i + 1..] && Linked(head, nodes)
    {
      ghost var all, rest := nodes, nodes[..i] + nodes[i + 1..];
      SkipAt(all, i);
      hide At;
      if prev == null {
        head := s.next;
      } else {
        prev.next := s.next;
      }
      nodes := rest;
      forall k | 0 <= k < |rest| ensures rest[k].next == At(rest, k + 1) {
        var j := if k < i then k else k + 1;
        assert rest[k] == all[j];
      }
    }

    /** Takes a callout out; the port mapper is told whenever there was one. */
    method Unregister(prog: word, vers: word) returns (unset: bool)
      requires Valid()
      modifies this, All(nodes)`next
      ensures Valid()
      ensures services == RemoveFrom(old(services), prog, vers)
      ensures unset <==> IndexOf(old(services), prog, vers) < |old(services)|
      ensures forall s :: s in nodes ==> s in old(nodes)
    {
      hide NoDuplicates, IndexOf, RemoveFrom, Linked, Hold;
      RemoveAt(services, prog, vers);
      var s, prev;
      ghost var i;
      s, prev, i := Find(prog, vers);
      if s == null {
        return false;
      }
      HoldSkip(nodes, services, i);
      services := RemoveFrom(services, prog, vers);
      Unlink(s, prev, i);
      var still := IsMapped(prog, vers);
      return !still;
    }

    /** Any run of registrations and removals does to the list what it does to the value. */
    method Perform(actions: seq<Action>)
      requires Valid()
      modifies this, All(nodes)`mapped, All(nodes)`next
      ensures Valid() && services == Run(old(services), actions)
      ensures forall s :: s in nodes ==> s in old(nodes) || fresh(s)
    {
      hide NoDuplicates, Linked, Hold, AddTo, RemoveFrom;
      var i := 0;
      while i < |actions|
        invariant 0 <= i <= |actions| && Valid()
        invariant Run(services, actions[i..]) == Run(old(services), actions)
        invariant forall s :: s in nodes ==> s in old(nodes) || fresh(s)
      {
        assert actions[i..][1..] == actions[i + 1..];
        match actions[i] {
          case Add(prog, vers, dispatch, protocol, granted) =>
            var ok := Register(prog, vers, dispatch, protocol, granted);
          case Remove(prog, vers) =>
            var unset := Unregister(prog, vers);
        }
        i := i + 1;
      }
    }

    /**
     * Matches a request: it is dispatched exactly when its program and version are listed,
     * else there is no such program, or the answer bounds the versions there are.
     */
    method Match(prog: word, vers: word) returns (r: Answer)
      requires Valid()
      ensures r.Dispatch? <==> IndexOf(services, prog, vers) < |services|
      ensures r.Dispatch? ==> r.to == services[IndexOf(services, prog, vers)].dispatch
      ensures r.NoProgram? <==> !Offers(services, prog)
      ensures r.Mismatch? ==> Bounds(services, prog, r.low, r.high)
    {
      hide Linked, Hold, IndexOf, Bounds, Offers;
      ghost var l := services;
      var low: word, high: word := 0xffff_ffff, 0;
      var found := false;
      var s := head;
      ghost var i, lowAt, highAt := 0, 0, 0;
      LinkedAt(head, nodes, 0);
      HoldAt(nodes, l, 0);
      while s != null
        invariant 0 <= i <= |nodes| && s == At(nodes, i)
        invariant forall j :: 0 <= j < i ==> !Is(l[j], prog, vers)
        invariant forall j :: 0 <= j < i && l[j].prog == prog ==> found && low <= l[j].vers <= high
        invariant found ==> 0 <= lowAt < i && l[lowAt].prog == prog && l[lowAt].vers == low
        invariant found ==> 0 <= highAt < i && l[highAt].prog == prog && l[highAt].vers == high
        invariant !found ==> low == 0xffff_ffff && high == 0
        decreases |nodes| - i
      {
        LinkedAt(head, nodes, i);
        HoldAt(nodes, l, i);
        if s.prog == prog {
          if s.vers == vers {
            FirstIs(l, i, prog, vers);
            return Dispatch(s.dispatch);
          }
          if s.vers < low || !found {
            lowAt := i;
          }
          if s.vers > high || !found {
            highAt := i;
          }
          found := true;
          if s.vers < low {
            low := s.vers;
          }
          if s.vers > high {
            high := s.vers;
          }
        }
        s := s.next;
        i := i + 1;
      }
      NoneIs(l, prog, vers);
      if !found {
        return NoProgram;
      }
      BoundsOf(l, prog, lowAt, highAt);
      return Mismatch(low, high);
    }
  }

  lemma HoldSkip(nodes: seq<Callout>, l: seq<Service>, i: nat)
    requires Hold(nodes, l) && i < |nodes|
    ensures |nodes| == |l| && Hold(nodes[..i] + nodes[i + 1..], l[..i] + l[i + 1..])
  {
  }

  lemma FirstIs(l: seq<Service>, i: nat, prog: word, vers: word)
    requires i < |l| && Is(l[i], prog, vers) && forall j :: 0 <= j < i ==> !Is(l[j], prog, vers)
    ensures IndexOf(l, prog, vers) == i && Offers(l, prog)
  {
  }

  lemma NoneIs(l: seq<Service>, prog: word, vers: word)
    requires forall j :: 0 <= j < |l| ==> !Is(l[j], prog, vers)
    ensures IndexOf(l, prog, vers) == |l|
    ensures (forall j :: 0 <= j < |l| ==> l[j].prog != prog) <==> !Offers(l, prog)
  {
  }
}
