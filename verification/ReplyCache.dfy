/**
 * The reply cache of the UDP server: a chained hash table and a circular list over the
 * same nodes, with reply buffers swapped in and out.  It is proved to be a plain list of
 * bounded length.
 */
module ReplyCache {
  import opened Bytes

  const SPARSENESS := 4

  /** What identifies a call besides its transaction id. */
  datatype Call = Call(proc: nat, vers: nat, prog: nat, addr: seq<byte>)

  datatype Key = Key(xid: nat, call: Call)

  datatype Entry = Entry(key: Key, reply: array<byte>, replylen: nat)

  // -- the cache as a list, oldest first --------------------------------------

  function ListSet<T>(size: nat, es: seq<T>, e: T): (r: seq<T>)
    requires size > 0
    ensures |es| <= size ==> |r| <= size
  {
    (if |es| == size then es[1..] else es) + [e]
  }

  function ListGet(es: seq<Entry>, key: Key): (r: Option<Entry>) {
    if es == [] then None
    else if es[|es| - 1].key == key then Some(es[|es| - 1])
    else ListGet(es[..|es| - 1], key)
  }

  /** A lookup finds the newest entry with the key, and fails only if there is none. */
  lemma {:induction false} ListGetIsNewest(es: seq<Entry>, key: Key)
    ensures ListGet(es, key).None? <==> forall i :: 0 <= i < |es| ==> es[i].key != key
    ensures ListGet(es, key).Some? ==>
      exists i :: 0 <= i < |es| && es[i] == ListGet(es, key).value && es[i].key == key
                  && forall j :: i < j < |es| ==> es[j].key != key
  {
    if es != [] {
      var n := |es| - 1;
      ListGetIsNewest(es[..n], key);
      if es[n].key != key && ListGet(es[..n], key).Some? {
        var i :| 0 <= i < n && es[..n][i] == ListGet(es[..n], key).value && es[..n][i].key == key
                 && forall j :: i < j < n ==> es[..n][j].key != key;
        assert es[i].key == key && forall j :: i < j < |es| ==> es[j].key != key;
      }
    }
  }

  function ListSetAll<T>(size: nat, es: seq<T>, more: seq<T>): (r: seq<T>)
    requires size > 0
    decreases more
  {
    if more == [] then es else ListSetAll(size, ListSet(size, es, more[0]), more[1..])
  }

  /** The last min(k, size) elements of a sequence of k. */
  function Last<T>(size: nat, s: seq<T>): (r: seq<T>)
    ensures forall e :: e in r ==> e in s
  {
    if |s| <= size then s else s[|s| - size..]
  }

  /** A set puts the entry last and keeps the newest of the others, as many as there is room for. */
  lemma ListSetKeepsNewest<T>(size: nat, es: seq<T>, e: T)
    requires size > 0 && |es| <= size
    ensures var r := ListSet(size, es, e);
            && |r| == (if |es| < size then |es| + 1 else size) && r[|r| - 1] == e
            && r[..|r| - 1] == es[|es| + 1 - |r|..]
  {
  }

  /** The last elements are a suffix, of the whole length or of the size. */
  lemma LastIsSuffix<T>(size: nat, s: seq<T>)
    ensures var r := Last(size, s);
            |r| <= |s| && |r| <= size && s[|s| - |r|..] == r && (|r| == |s| || |r| == size)
  {
  }

  /** After any run of sets the list holds exactly the last min(k, size) entries. */
  lemma {:induction false} LastEntriesAreKept<T>(size: nat, es: seq<T>, more: seq<T>)
    requires size > 0 && |es| <= size
    ensures ListSetAll(size, es, more) == Last(size, es + more)
    decreases more
  {
    if more == [] {
      assert es + more == es;
    } else {
      var es' := ListSet(size, es, more[0]);
      LastEntriesAreKept(size, es', more[1..]);
      if |es| < size {
        assert es' + more[1..] == es + more;
      } else {
        hide Last;
        LastDrops(size, es + more);
        assert es' + more[1..] == (es + more)[1..];
      }
    }
  }

  lemma LastDrops<T>(size: nat, s: seq<T>)
    requires |s| > size
    ensures Last(size, s[1..]) == Last(size, s)
  {
  }

  /** One more set keeps the last entries of one more. */
  lemma LastAdvances<T>(size: nat, past: seq<T>, e: T)
    requires size > 0
    ensures ListSet(size, Last(size, past), e) == Last(size, past + [e])
  {
    var es := Last(size, past);
    LastEntriesAreKept(size, es, [e]);
    assert ListSetAll(size, es, [e]) == ListSet(size, es, e);
    if |past| > size {
      assert (es + [e])[1..] == (past + [e])[|past| + 1 - size..];
    }
  }

  // -- nodes and chains -------------------------------------------------------

  class Node {
    var key: Key
    var reply: array<byte>
    var replylen: nat
    var next: Node?

    constructor (key: Key, reply: array<byte>)
      ensures this.key == key && this.reply == reply
    {
      this.key, this.reply, this.replylen, this.next := key, reply, 0, null;
    }
  }

  /** A node together with the entry it holds. */
  datatype Cell = Cell(node: Node, entry: Entry)

  function Loc(buckets: nat, xid: nat): (loc: nat)
    requires buckets > 0
    ensures loc < buckets
  {
    xid % buckets
  }

  ghost function Entries(cells: seq<Cell>): (es: seq<Entry>)
    ensures |es| == |cells| && forall i :: 0 <= i < |es| ==> es[i] == cells[i].entry
  {
    seq(|cells|, i requires 0 <= i < |cells| => cells[i].entry)
  }

  ghost predicate Hashes(buckets: nat, c: Cell, loc: nat)
    requires buckets > 0
  {
    Loc(buckets, c.entry.key.xid) == loc
  }

  /** The cells of a bucket, newest first. */
  ghost function Chain(buckets: nat, cells: seq<Cell>, loc: nat): (ch: seq<Cell>)
    requires buckets > 0
    ensures forall i :: 0 <= i < |ch| ==> ch[i] in cells && Hashes(buckets, ch[i], loc)
  {
    if cells == [] then []
    else
      var c, older := cells[|cells| - 1], Chain(buckets, cells[..|cells| - 1], loc);
      if Hashes(buckets, c, loc) then [c] + older else older
  }

  /** Dropping the oldest cell takes the last element off its own chain and no other. */
  lemma {:induction false} ChainDropOldest(buckets: nat, cells: seq<Cell>, loc: nat)
    requires buckets > 0 && cells != []
    ensures var ch := Chain(buckets, cells, loc);
            if Hashes(buckets, cells[0], loc)
            then ch != [] && ch[|ch| - 1] == cells[0] && Chain(buckets, cells[1..], loc) == ch[..|ch| - 1]
            else Chain(buckets, cells[1..], loc) == ch
  {
    var n := |cells| - 1;
    if n > 0 {
      ChainDropOldest(buckets, cells[..n], loc);
      assert cells[..n][1..] == cells[1..][..n - 1] && cells[1..][n - 1] == cells[n];
    }
  }

  lemma ChainAddNewest(buckets: nat, cells: seq<Cell>, c: Cell, loc: nat)
    requires buckets > 0
    ensures Chain(buckets, cells + [c], loc) ==
            (if Hashes(buckets, c, loc) then [c] else []) + Chain(buckets, cells, loc)
  {
    assert (cells + [c])[..|cells|] == cells;
  }

  function FirstMatch(ch: seq<Cell>, key: Key): (r: Option<Entry>) {
    if ch == [] then None
    else if ch[0].entry.key == key then Some(ch[0].entry)
    else FirstMatch(ch[1..], key)
  }

  /** The first match in the bucket of a key is the newest match of all. */
  lemma {:induction false} FirstMatchIsNewest(buckets: nat, cells: seq<Cell>, key: Key)
    requires buckets > 0
    ensures FirstMatch(Chain(buckets, cells, Loc(buckets, key.xid)), key) == ListGet(Entries(cells), key)
  {
    if cells != [] {
      var n := |cells| - 1;
      FirstMatchIsNewest(buckets, cells[..n], key);
      assert Entries(cells)[..n] == Entries(cells[..n]);
      var older := Chain(buckets, cells[..n], Loc(buckets, key.xid));
      assert ([cells[n]] + older)[1..] == older;
    }
  }

  ghost function NodeAt(ch: seq<Cell>, i: nat): Node? {
    if i < |ch| then ch[i].node else null
  }

  ghost function Nodes(cells: seq<Cell>): (ns: set<Node>)
  {
    set i | 0 <= i < |cells| :: cells[i].node
  }

  /** Following the pointers from a bucket visits exactly a chain. */
  ghost predicate Linked(head: Node?, ch: seq<Cell>)
    reads Nodes(ch)`next
  {
    head == NodeAt(ch, 0) && forall i :: 0 <= i < |ch| ==> ch[i].node.next == NodeAt(ch, i + 1)
  }

  ghost predicate Distinct(cells: seq<Cell>) {
    forall i, j :: 0 <= i < j < |cells| ==> cells[i].node != cells[j].node
  }

  lemma {:induction false} ChainDistinct(buckets: nat, cells: seq<Cell>, loc: nat)
    requires buckets > 0 && Distinct(cells)
    ensures Distinct(Chain(buckets, cells, loc))
  {
    if cells != [] {
      var n := |cells| - 1;
      ChainDistinct(buckets, cells[..n], loc);
      var older := Chain(buckets, cells[..n], loc);
      forall i | 0 <= i < |older| ensures older[i].node != cells[n].node {
        assert older[i] in cells[..n];
      }
    }
  }

  /** A node is in the chain of one bucket only. */
  lemma ChainsDisjoint(buckets: nat, cells: seq<Cell>, loc: nat, other: nat)
    requires buckets > 0 && Distinct(cells) && loc != other
    ensures var a, b := Chain(buckets, cells, loc), Chain(buckets, cells, other);
            forall i, j :: 0 <= i < |a| && 0 <= j < |b| ==> a[i].node != b[j].node
  {
    var a, b := Chain(buckets, cells, loc), Chain(buckets, cells, other);
    forall i, j | 0 <= i < |a| && 0 <= j < |b| ensures a[i].node != b[j].node {
      assert a[i] in cells && b[j] in cells;
      assert Hashes(buckets, a[i], loc) && Hashes(buckets, b[j], other);
    }
  }

  lemma DistinctNodes(cells: seq<Cell>)
    requires Distinct(cells)
    ensures forall i, j :: 0 <= i < j < |cells| ==> cells[i].node != cells[j].node
  {
  }

  /** The circular list is a rotation of the cells, or their start while it fills up. */
  ghost predicate RingOf(fifo: seq<Node?>, next: nat, cells: seq<Cell>) {
    && |cells| <= |fifo| && next < |fifo|
    && (|cells| < |fifo| ==>
          next == |cells| && forall i :: 0 <= i < |fifo| ==> fifo[i] == NodeAt(cells, i))
    && (|cells| == |fifo| ==> forall i :: 0 <= i < |fifo| ==>
          fifo[i] == cells[if i < next then i + |fifo| - next else i - next].node)
  }

  lemma RingBound(fifo: seq<Node?>, next: nat, cells: seq<Cell>)
    requires RingOf(fifo, next, cells)
    ensures next < |fifo| && |cells| <= |fifo|
  {
  }

  function Rest(size: nat, cells: seq<Cell>): seq<Cell>
    requires size > 0
  {
    if |cells| == size then cells[1..] else cells
  }

  /** Replacing the slot of the next victim keeps the circular list in step. */
  lemma RingAdvances(fifo: seq<Node?>, next: nat, cells: seq<Cell>, c: Cell)
    requires RingOf(fifo, next, cells)
    ensures RingOf(fifo[next := c.node], (next + 1) % |fifo|, Rest(|fifo|, cells) + [c])
  {
    var n := if next + 1 == |fifo| then 0 else next + 1;
    assert (next + 1) % |fifo| == n;
    if |cells| == |fifo| {
      RingTurns(fifo, next, n, cells, c);
    } else {
      RingGrows(fifo, next, n, cells, c);
    }
  }

  lemma RingTurns(fifo: seq<Node?>, next: nat, n: nat, cells: seq<Cell>, c: Cell)
    requires RingOf(fifo, next, cells) && |cells| == |fifo|
    requires n == if next + 1 == |fifo| then 0 else next + 1
    ensures RingOf(fifo[next := c.node], n, cells[1..] + [c])
  {
  }

  lemma RingGrows(fifo: seq<Node?>, next: nat, n: nat, cells: seq<Cell>, c: Cell)
    requires RingOf(fifo, next, cells) && |cells| < |fifo|
    requires n == if next + 1 == |fifo| then 0 else next + 1
    ensures RingOf(fifo[next := c.node], n, cells + [c])
  {
  }

  lemma EntriesAdvance(size: nat, cells: seq<Cell>, c: Cell)
    requires size > 0 && |cells| <= size
    ensures Entries(Rest(size, cells) + [c]) == ListSet(size, Entries(cells), c.entry)
  {
  }

  lemma NodesAdvance(size: nat, cells: seq<Cell>, c: Cell)
    requires size > 0
    ensures forall n :: n in Nodes(Rest(size, cells) + [c]) ==> n in Nodes(cells) || n == c.node
  {
  }

  lemma DistinctAdd(rest: seq<Cell>, c: Cell)
    requires Distinct(rest) && c.node !in Nodes(rest)
    ensures Distinct(rest + [c])
  {
    forall i | 0 <= i < |rest| ensures rest[i].node != c.node {
      assert rest[i].node in Nodes(rest);
    }
  }

  // -- the cache --------------------------------------------------------------

  /** The part of a UDP transport that the cache works on. */
  class Transport {
    var buf: array<byte>      // rpc_buffer
    const iosz: nat           // su_iosz
    var xid: nat              // su_xid
    var encoding: bool        // x_op of the memory stream over buf
    var pos: nat              // x_private - x_base
    var handy: nat            // x_handy

    constructor (iosz: nat)
      ensures this.iosz == iosz && buf.Length == iosz && fresh(buf)
      ensures xid == 0 && !encoding && pos == 0 && handy == iosz
    {
      this.iosz := iosz;
      buf := new byte[iosz];
      xid, encoding, pos, handy := 0, false, 0, iosz;
    }

    /** Changes the buffer and starts encoding at its start. */
    method Renew(newbuf: array<byte>)
      modifies this
      ensures buf == newbuf && encoding && pos == 0 && handy == iosz && xid == old(xid)
    {
      buf := newbuf;
      encoding, pos, handy := true, 0, iosz;
    }

    /** Fills the buffer from its start with as many of the bytes as it holds. */
    method Fill(bytes: seq<byte>) returns (ok: bool)
      modifies buf
      ensures ok <==> |bytes| <= buf.Length
      ensures var n := if ok then |bytes| else buf.Length;
              buf[..n] == bytes[..n] && buf[n..] == old(buf[n..])
    {
      ok := |bytes| <= buf.Length;
      var n := if ok then |bytes| else buf.Length;
      forall k | 0 <= k < n {
        buf[k] := bytes[k];
      }
    }

    /** A clone gets a buffer of its own, with the same bytes and the same place in them. */
    method Clone() returns (c: Transport)
      requires buf.Length == iosz
      ensures fresh(c) && fresh(c.buf)
      ensures c.iosz == iosz && c.buf.Length == iosz && c.buf[..] == buf[..]
      ensures c.xid == xid && c.encoding == encoding && c.pos == pos && c.handy == handy
    {
      c := new Transport(iosz);
      c.xid := xid;
      forall i | 0 <= i < iosz {
        c.buf[i] := buf[i];
      }
      c.encoding, c.pos, c.handy := encoding, pos, handy;
    }
  }

  class Cache {
    const size: nat                  // uc_size
    const entries: array<Node?>      // uc_entries
    const fifo: array<Node?>         // uc_fifo
    var nextVictim: nat              // uc_nextvictim
    var saved: Call                  // uc_prog, uc_vers, uc_proc, uc_addr
    ghost var cells: seq<Cell>       // the nodes in use, oldest first

    /** The cells hold what the list says. */
    static ghost predicate Filled(cells: seq<Cell>)
      reads Nodes(cells)`key, Nodes(cells)`reply, Nodes(cells)`replylen
    {
      forall i :: 0 <= i < |cells| ==>
        var n, e := cells[i].node, cells[i].entry;
        n.key == e.key && n.reply == e.reply && n.replylen == e.replylen
    }

    ghost predicate Shape() {
      size > 0 && entries.Length == SPARSENESS * size && fifo.Length == size && entries != fifo
    }

    ghost predicate Ring(cells: seq<Cell>)
      reads `nextVictim, fifo
    {
      RingOf(fifo[..], nextVictim, cells)
    }

    ghost predicate Chains(cells: seq<Cell>)
      requires Shape()
      reads entries, Nodes(cells)`next
    {
      forall loc :: 0 <= loc < entries.Length ==>
        Linked(entries[loc], Chain(entries.Length, cells, loc))
    }

    ghost predicate Valid()
      reads this, entries, fifo, Nodes(cells)
    {
      Shape() && Distinct(cells) && Filled(cells) && Ring(cells) && Chains(cells)
    }

    constructor (size: nat)
      requires size > 0
      ensures Valid() && this.size == size && cells == []
      ensures fresh(entries) && fresh(fifo)
    {
      this.size := size;
      entries := new Node?[SPARSENESS * size](_ => null);
      fifo := new Node?[size](_ => null);
      nextVictim := 0;
      saved := *;    // not set before the first miss
      cells := [];
    }

    /**
     * Looks up the transport's transaction id with the saved call.  A hit is the newest
     * entry with that key; a miss saves the call that was asked about.
     */
    method Get(x: Transport, call: Call) returns (r: Option<Entry>)
      requires Valid()
      modifies `saved
      ensures Valid()
      ensures r == ListGet(Entries(cells), Key(x.xid, old(saved)))
      ensures saved == if r.Some? then old(saved) else call
    {
      var key := Key(x.xid, saved);
      var loc := Loc(entries.Length, x.xid);
      ghost var ch := Chain(entries.Length, cells, loc);
      FirstMatchIsNewest(entries.Length, cells, key);
      var ent := entries[loc];
      ghost var i := 0;
      while ent != null
        invariant 0 <= i <= |ch| && ent == NodeAt(ch, i)
        invariant FirstMatch(ch, key) == FirstMatch(ch[i..], key)
        decreases |ch| - i
      {
        assert ch[i] in cells;
        if ent.key == key {
          return Some(Entry(ent.key, ent.reply, ent.replylen));
        }
        assert ch[i..][1..] == ch[i + 1..];
        ent := ent.next;
        i := i + 1;
      }
      saved := call;
      return None;
    }

    /** A request arrives: the transport takes its transaction id and the cache is asked. */
    method Recv(x: Transport, xid: nat, call: Call) returns (r: Option<Entry>)
      requires Valid()
      modifies `saved, x`xid
      ensures Valid() && x.xid == xid
      ensures r == ListGet(Entries(cells), Key(xid, old(saved)))
      ensures saved == if r.Some? then old(saved) else call
    {
      x.xid := xid;
      r := Get(x, call);
    }

    /** Walks the chain of the oldest node up to the pointer to it, which is always there. */
    method FindLink(loc: nat, victim: Node) returns (found: bool, prev: Node?)
      requires Shape() && Distinct(cells) && Chains(cells)
      requires cells != [] && cells[0].node == victim
      requires loc < entries.Length && Hashes(entries.Length, cells[0], loc)
      ensures found
      ensures var ch := Chain(entries.Length, cells, loc);
              ch != [] && victim.next == null &&
              prev == if |ch| == 1 then null else ch[|ch| - 2].node
    {
      hide Chain, Hashes;
      ghost var ch := Chain(entries.Length, cells, loc);
      ChainDropOldest(entries.Length, cells, loc);
      ChainDistinct(entries.Length, cells, loc);
      assert Linked(entries[loc], ch);
      prev := null;
      var p := entries[loc];
      ghost var i := 0;
      while p != null && p != victim
        invariant 0 <= i < |ch| && p == NodeAt(ch, i)
        invariant prev == if i == 0 then null else ch[i - 1].node
        decreases |ch| - i
      {
        prev, p := p, p.next;
        i := i + 1;
      }
      return p != null, prev;
    }

    /** Empties the bucket of the oldest node when it is alone there. */
    method SpliceHead(loc: nat, victim: Node)
      requires Shape() && Distinct(cells) && Chains(cells) && cells != []
      requires loc < entries.Length && Hashes(entries.Length, cells[0], loc)
      requires |Chain(entries.Length, cells, loc)| == 1 && victim.next == null
      modifies entries
      ensures Chains(cells[1..])
    {
      hide Chain, Hashes;
      entries[loc] := victim.next;
      forall l | 0 <= l < entries.Length
        ensures Linked(entries[l], Chain(entries.Length, cells[1..], l))
      {
        assert old(Linked(entries[l], Chain(entries.Length, cells, l)));
        ChainDropOldest(entries.Length, cells, l);
        if l != loc {
          ChainKept(l, loc);
        }
      }
    }

    /** Ends the chain of the oldest node before it; the other chains do not change. */
    method SpliceAfter(loc: nat, prev: Node, victim: Node)
      requires Shape() && Distinct(cells) && Chains(cells) && cells != []
      requires loc < entries.Length && Hashes(entries.Length, cells[0], loc)
      requires |Chain(entries.Length, cells, loc)| > 1 && victim.next == null
      requires var ch := Chain(entries.Length, cells, loc); prev == ch[|ch| - 2].node
      modifies prev`next
      ensures Chains(cells[1..])
    {
      hide Chain, Hashes, Distinct;
      ghost var ch := Chain(entries.Length, cells, loc);
      ChainDropOldest(entries.Length, cells, loc);
      ChainDistinct(entries.Length, cells, loc);
      DistinctNodes(ch);
      assert Linked(entries[loc], ch);
      prev.next := victim.next;
      assert Linked(entries[loc], ch[..|ch| - 1]);
      forall l | 0 <= l < entries.Length && l != loc
        ensures Linked(entries[l], Chain(entries.Length, cells[1..], l))
      {
        assert old(Linked(entries[l], Chain(entries.Length, cells, l)));
        ChainKept(l, loc);
      }
    }

    /** Takes the oldest node out of the hash table. */
    method Unlink(victim: Node) returns (found: bool)
      requires Shape() && Distinct(cells) && Filled(cells) && Chains(cells)
      requires cells != [] && cells[0].node == victim
      modifies entries, Nodes(cells)`next
      ensures found && Chains(cells[1..])
    {
      var loc := Loc(entries.Length, victim.key.xid);
      assert Hashes(entries.Length, cells[0], loc);
      hide Chain, Hashes, Chains, Distinct;
      var prev;
      found, prev := FindLink(loc, victim);
      if !found {
        return;
      }
      if prev == null {
        SpliceHead(loc, victim);
      } else {
        assert Chain(entries.Length, cells, loc)[|Chain(entries.Length, cells, loc)| - 2] in cells;
        SpliceAfter(loc, prev, victim);
      }
    }

    lemma ChainKept(l: nat, loc: nat)
      requires Shape() && Distinct(cells) && cells != []
      requires l != loc && Hashes(entries.Length, cells[0], loc)
      ensures Chain(entries.Length, cells[1..], l) == Chain(entries.Length, cells, l)
      ensures var a, b := Chain(entries.Length, cells, loc), Chain(entries.Length, cells, l);
              forall i, j :: 0 <= i < |a| && 0 <= j < |b| ==> a[i].node != b[j].node
    {
      ChainDropOldest(entries.Length, cells, l);
      ChainsDisjoint(entries.Length, cells, loc, l);
    }

    /** The chains of `rest` are in place, the one of bucket `loc` behind a node that heads it. */
    ghost predicate Behind(rest: seq<Cell>, node: Node, loc: nat)
      requires Shape() && loc < entries.Length
      reads entries, Nodes(rest)`next, node`next
    {
      && entries[loc] == node && Linked(node.next, Chain(entries.Length, rest, loc))
      && forall l :: 0 <= l < entries.Length && l != loc ==>
           Linked(entries[l], Chain(entries.Length, rest, l))
    }

    /** Puts a node that is in no chain at the front of its bucket. */
    method LinkFront(node: Node, ghost rest: seq<Cell>, ghost e: Entry)
      requires Shape() && Chains(rest)
      requires node !in Nodes(rest) && node.key == e.key
      modifies entries, node`next
      ensures Chains(rest + [Cell(node, e)])
    {
      var loc := Loc(entries.Length, node.key.xid);
      hide Chain, Hashes, Loc;
      assert forall l :: 0 <= l < entries.Length ==> Linked(entries[l], Chain(entries.Length, rest, l));
      node.next := entries[loc];
      entries[loc] := node;
      forall l | 0 <= l < entries.Length
        ensures Linked(old(entries[l]), Chain(entries.Length, rest, l))
      {
        ChainAvoids(rest, l, node);
        assert old(Linked(entries[l], Chain(entries.Length, rest, l)));
      }
      assert Behind(rest, node, loc) by { hide Linked; }
      FrontLinked(rest, Cell(node, e));
    }

    lemma FrontLinked(rest: seq<Cell>, c: Cell)
      requires Shape() && Behind(rest, c.node, Loc(entries.Length, c.entry.key.xid))
      ensures Chains(rest + [c])
    {
      hide Chain, Hashes;
      forall l | 0 <= l < entries.Length
        ensures Linked(entries[l], Chain(entries.Length, rest + [c], l))
      {
        AddedChain(rest, c, l);
        HeadLinked(c, Chain(entries.Length, rest, l));
      }
    }

    lemma HeadLinked(c: Cell, ch: seq<Cell>)
      ensures Linked(c.node.next, ch) ==> Linked(c.node, [c] + ch)
    {
    }

    lemma AddedChain(rest: seq<Cell>, c: Cell, l: nat)
      requires Shape()
      ensures Chain(entries.Length, rest + [c], l) ==
              if l == Loc(entries.Length, c.entry.key.xid)
              then [c] + Chain(entries.Length, rest, l) else Chain(entries.Length, rest, l)
    {
      ChainAddNewest(entries.Length, rest, c, l);
      assert [] + Chain(entries.Length, rest, l) == Chain(entries.Length, rest, l);
    }

    lemma ChainAvoids(rest: seq<Cell>, l: nat, node: Node)
      requires Shape() && node !in Nodes(rest)
      ensures var ch := Chain(entries.Length, rest, l);
              forall i :: 0 <= i < |ch| ==> ch[i].node != node
    {
      var ch := Chain(entries.Length, rest, l);
      forall i | 0 <= i < |ch| ensures ch[i].node != node {
        assert ch[i] in rest;
      }
    }

    /** The node and the buffer for a new entry: those of the oldest, or new ones. */
    method Room(x: Transport) returns (victim: Node, newbuf: array<byte>, ghost rest: seq<Cell>)
      requires Valid()
      modifies entries, Nodes(cells)`next
      ensures Chains(rest) && victim !in Nodes(rest) && Distinct(rest)
      ensures rest == Rest(size, cells) && Filled(rest)
      ensures if |cells| == size
              then victim == cells[0].node && newbuf == cells[0].entry.reply
              else fresh(victim) && fresh(newbuf) && newbuf.Length == x.iosz
    {
      var v := fifo[nextVictim];
      if v != null {
        var found := Unlink(v);
        victim, newbuf, rest := v, v.reply, cells[1..];
      } else {
        newbuf := new byte[x.iosz];
        victim := new Node(Key(0, saved), newbuf);
        rest := cells;
      }
    }

    /** Stores an entry in a node that is not in use. */
    method FillNode(victim: Node, e: Entry, ghost rest: seq<Cell>, ghost all: seq<Cell>)
      requires Filled(rest) && victim !in Nodes(rest) && all == rest + [Cell(victim, e)]
      modifies victim`replylen, victim`reply, victim`key
      ensures Filled(all) && victim.key == e.key
    {
      victim.replylen := e.replylen;
      victim.reply := e.reply;
      victim.key := e.key;
      forall i | 0 <= i < |rest| ensures rest[i].node != victim {
        assert rest[i].node in Nodes(rest);
      }
    }

    /** Enters a filled node in the hash table and in the circular list. */
    method Install(victim: Node, e: Entry, ghost rest: seq<Cell>, ghost all: seq<Cell>)
      requires Shape() && Chains(rest) && Distinct(rest) && Ring(cells)
      requires rest == Rest(size, cells) && victim !in Nodes(rest)
      requires all == rest + [Cell(victim, e)] && victim.key == e.key && Filled(all)
      modifies `nextVictim, `cells, entries, fifo, victim`next
      ensures Valid() && cells == all
    {
      hide Chain, Chains, Distinct, RingOf, NodeAt;
      DistinctAdd(rest, Cell(victim, e));
      RingAdvances(fifo[..], nextVictim, cells, Cell(victim, e));
      assert nextVictim < size by { RingBound(fifo[..], nextVictim, cells); }
      hide Rest;
      LinkFront(victim, rest, e);
      fifo[nextVictim] := victim;
      assert fifo[..] == old(fifo[..])[nextVictim := victim];
      nextVictim := (nextVictim + 1) % size;
      cells := all;
    }

    /** Moves the reply into a node and gives the transport the buffer that makes room. */
    method Store(x: Transport, replylen: nat)
      returns (victim: Node, e: Entry, ghost rest: seq<Cell>, ghost all: seq<Cell>)
      requires Valid()
      modifies entries, Nodes(cells), x
      ensures Chains(rest) && Distinct(rest) && Filled(all) && |cells| <= size
      ensures rest == Rest(size, cells) && all == rest + [Cell(victim, e)]
      ensures victim !in Nodes(rest) && victim.key == e.key
      ensures victim in Nodes(cells) || fresh(victim)
      ensures e == Entry(Key(x.xid, saved), old(x.buf), replylen)
      ensures |cells| == size ==> x.buf == cells[0].entry.reply
      ensures |cells| < size ==> fresh(x.buf) && x.buf.Length == x.iosz
      ensures x.encoding && x.pos == 0 && x.handy == x.iosz && x.xid == old(x.xid)
    {
      RingBound(fifo[..], nextVictim, cells);
      hide Chain, Chains, Distinct, RingOf, NodeAt, Rest;
      var newbuf;
      victim, newbuf, rest := Room(x);
      e := Entry(Key(x.xid, saved), x.buf, replylen);
      all := rest + [Cell(victim, e)];
      FillNode(victim, e, rest, all);
      x.Renew(newbuf);
    }

    /**
     * Caches the reply in the transport's buffer.  The cache becomes the list with the
     * new entry, and the transport gets the buffer the cache gives up for it.
     */
    method Set(x: Transport, replylen: nat)
      requires Valid()
      modifies `nextVictim, `cells, entries, fifo, Nodes(cells), x
      ensures Valid()
      ensures Entries(cells) ==
              ListSet(size, old(Entries(cells)), Entry(Key(old(x.xid), saved), old(x.buf), replylen))
      ensures old(|cells|) == size ==> x.buf == old(cells)[0].entry.reply
      ensures old(|cells|) < size ==> fresh(x.buf) && x.buf.Length == x.iosz
      ensures x.encoding && x.pos == 0 && x.handy == x.iosz && x.xid == old(x.xid)
      ensures forall n :: n in Nodes(cells) ==> n in old(Nodes(cells)) || fresh(n)
    {
      hide Chain, Chains, Distinct, Filled, ListSet, Entries, RingOf, NodeAt;
      var victim, e;
      ghost var rest, all;
      victim, e, rest, all := Store(x, replylen);
      EntriesAdvance(size, cells, Cell(victim, e));
      NodesAdvance(size, cells, Cell(victim, e));
      hide Nodes;
      Install(victim, e, rest, all);
    }
  }

  /** Every node in use is in the bucket of its own transaction id, which has four times as many as the cache. */
  lemma OwnBucket(cache: Cache, i: nat)
    requires cache.Valid() && i < |cache.cells|
    ensures var loc := cache.cells[i].node.key.xid % (4 * cache.size);
            && loc < cache.entries.Length
            && Linked(cache.entries[loc], Chain(cache.entries.Length, cache.cells, loc))
            && cache.cells[i] in Chain(cache.entries.Length, cache.cells, loc)
  {
    InOwnChain(cache.entries.Length, cache.cells, i);
    assert cache.Filled(cache.cells);
    hide Chain, Linked;
  }

  lemma {:induction false} InOwnChain(buckets: nat, cells: seq<Cell>, i: nat)
    requires buckets > 0 && i < |cells|
    ensures cells[i] in Chain(buckets, cells, Loc(buckets, cells[i].entry.key.xid))
  {
    var n := |cells| - 1;
    var loc := Loc(buckets, cells[i].entry.key.xid);
    if i < n {
      InOwnChain(buckets, cells[..n], i);
    } else {
      assert Hashes(buckets, cells[n], loc);
    }
  }

  /**
   * A call that has never been answered is given the reply to another one, because it
   * carries the same transaction id: ReplyRuns.StaleRun, made by the cache itself.
   */
  method StaleHit() returns (asked: Call, r: Option<Entry>)
    ensures r.Some? && r.value.key.call != asked
  {
    hide Chain, Cache.Chains, Cache.Filled, Distinct, RingOf;
    var x := new Transport(8);
    x.xid := 7;
    var cache := new Cache(2);
    var answered := Call(1, 1, 1, [10]);
    r := cache.Get(x, answered);
    assert Entries(cache.cells) == [];
    cache.Set(x, 4);
    asked := Call(2, 1, 1, [20]);
    assert answered.proc != asked.proc;
    r := cache.Get(x, asked);
  }

  // -- who owns which buffer --------------------------------------------------

  ghost function Replies(es: seq<Entry>): (rs: seq<array<byte>>)
    ensures |rs| == |es| && forall i :: 0 <= i < |rs| ==> rs[i] == es[i].reply
  {
    seq(|es|, i requires 0 <= i < |es| => es[i].reply)
  }

  ghost function Bufs(family: seq<Transport>): (bs: seq<array<byte>>)
    reads family
    ensures |bs| == |family| && forall i :: 0 <= i < |bs| ==> bs[i] == family[i].buf
  {
    seq(|family|, i requires 0 <= i < |family| reads family => family[i].buf)
  }

  ghost function Buffers(cells: seq<Cell>, family: seq<Transport>): seq<array<byte>>
    reads family
  {
    Replies(Entries(cells)) + Bufs(family)
  }

  /** Every buffer, cached or in use, has one owner and the common size. */
  ghost predicate Owned(all: seq<array<byte>>, iosz: nat) {
    forall b | b in all :: multiset(all)[b] == 1 && b.Length == iosz
  }

  /**
   * A set moves the working buffer of a transport into the cache and, when the cache is
   * full, the oldest reply buffer back: the buffers are the same ones, permuted.  While
   * it fills up, one new buffer joins them.
   */
  lemma SetPermutesBuffers(size: nat, es: seq<Entry>, bufs: seq<array<byte>>, i: nat,
                           e: Entry, b: array<byte>)
    requires size > 0 && |es| <= size && i < |bufs| && e.reply == bufs[i]
    requires |es| == size ==> b == es[0].reply
    ensures var was, now := Replies(es) + bufs, Replies(ListSet(size, es, e)) + bufs[i := b];
            multiset(now) == multiset(was) + if |es| == size then multiset{} else multiset{b}
  {
    var kept := if |es| == size then es[1..] else es;
    assert ListSet(size, es, e) == kept + [e];
    hide ListSet;
    assert Replies(kept + [e]) == Replies(kept) + [bufs[i]];
    MovedIn(Replies(kept), bufs, i, b);
    if |es| == size {
      assert Replies(es) == [b] + Replies(kept);
      assert multiset(Replies(es)) == multiset{b} + multiset(Replies(kept));
    }
    assert multiset(Replies(es) + bufs) == multiset(Replies(es)) + multiset(bufs);
  }

  lemma MovedIn(kept: seq<array<byte>>, bufs: seq<array<byte>>, i: nat, b: array<byte>)
    requires i < |bufs|
    ensures multiset(kept + [bufs[i]] + bufs[i := b]) == multiset(kept) + multiset(bufs) + multiset{b}
  {
    SwapOne(bufs, i, b);
    var tail := bufs[i := b];
    assert multiset(kept + [bufs[i]] + tail) == multiset(kept) + multiset{bufs[i]} + multiset(tail);
  }

  lemma SwapOne(s: seq<array<byte>>, i: nat, b: array<byte>)
    requires i < |s|
    ensures multiset{s[i]} + multiset(s[i := b]) == multiset(s) + multiset{b}
  {
    assert s == s[..i] + [s[i]] + s[i + 1..];
    assert s[i := b] == s[..i] + [b] + s[i + 1..];
  }

  ghost predicate Family(family: seq<Transport>, iosz: nat) {
    && (forall i, j :: 0 <= i < j < |family| ==> family[i] != family[j])
    && (forall i :: 0 <= i < |family| ==> family[i].iosz == iosz)
  }

  /** A parent and its clones share a cache; ownership survives every set by any of them. */
  method SetByOne(cache: Cache, family: seq<Transport>, i: nat, replylen: nat, ghost iosz: nat)
    requires cache.Valid() && Family(family, iosz) && i < |family|
    requires Owned(Buffers(cache.cells, family), iosz)
    modifies cache`nextVictim, cache`cells, cache.entries, cache.fifo, Nodes(cache.cells), family[i]
    ensures cache.Valid()
    ensures Owned(Buffers(cache.cells, family), iosz)
    ensures old(|cache.cells|) == cache.size ==>
      multiset(Buffers(cache.cells, family)) ==
      old(multiset(Buffers(cache.cells, family)))
    ensures old(multiset(Buffers(cache.cells, family))) <= multiset(Buffers(cache.cells, family))
    ensures Entries(cache.cells) ==
            ListSet(cache.size, old(Entries(cache.cells)),
                    Entry(Key(old(family[i].xid), cache.saved), old(family[i].buf), replylen))
    ensures family[i].xid == old(family[i].xid)
    ensures forall b :: b in Buffers(cache.cells, family) ==> b in old(Buffers(cache.cells, family)) || fresh(b)
    ensures forall n :: n in Nodes(cache.cells) ==> n in old(Nodes(cache.cells)) || fresh(n)
  {
    hide Chain, Cache.Chains, Cache.Filled, Distinct, Entries, RingOf, ListSet, NodeAt;
    ghost var es, bufs := Entries(cache.cells), Bufs(family);
    RingBound(cache.fifo[..], cache.nextVictim, cache.cells);
    var x := family[i];
    cache.Set(x, replylen);
    assert Bufs(family) == bufs[i := x.buf];
    SetPermutesBuffers(cache.size, es, bufs, i, Entry(Key(x.xid, cache.saved), bufs[i], replylen), x.buf);
    OwnedStays(Replies(es) + bufs, Buffers(cache.cells, family), x.buf, iosz);
    SameBuffers(Replies(es) + bufs, Buffers(cache.cells, family), x.buf);
  }

  lemma SameBuffers(was: seq<array<byte>>, now: seq<array<byte>>, b: array<byte>)
    requires multiset(now) == multiset(was) || multiset(now) == multiset(was) + multiset{b}
    ensures multiset(was) <= multiset(now)
    ensures forall c :: c in now ==> c in was || (c == b && multiset(now) != multiset(was))
  {
    forall c | c in now ensures c in was || (c == b && multiset(now) != multiset(was)) {
      assert c in multiset(now);
      if c in multiset(was) {
        assert c in was;
      }
    }
  }

  lemma OwnedStays(was: seq<array<byte>>, now: seq<array<byte>>, b: array<byte>, iosz: nat)
    requires Owned(was, iosz)
    requires multiset(now) == multiset(was)
             || (multiset(now) == multiset(was) + multiset{b} && b !in was && b.Length == iosz)
    ensures Owned(now, iosz)
  {
    forall c | c in now ensures multiset(now)[c] == 1 && c.Length == iosz {
      assert c in multiset(now);
      if c in multiset(was) {
        assert c in was;
      }
    }
  }

  lemma FamilyGrows(family: seq<Transport>, c: Transport, iosz: nat)
    requires Family(family, iosz) && c !in family && c.iosz == iosz
    ensures Family(family + [c], iosz)
  {
  }

  /** A clone brings a buffer of its own into the family. */
  method CloneOne(cache: Cache, family: seq<Transport>, i: nat, ghost iosz: nat)
    returns (wider: seq<Transport>)
    requires cache.Valid() && Family(family, iosz) && i < |family|
    requires Owned(Buffers(cache.cells, family), iosz)
    ensures |wider| == |family| + 1 && wider[..|family|] == family
    ensures cache.Valid() && Family(wider, iosz) && Owned(Buffers(cache.cells, wider), iosz)
    ensures wider[|family|].buf[..] == family[i].buf[..] && wider[|family|].xid == family[i].xid
    ensures fresh(wider[|family|]) && fresh(wider[|family|].buf)
    ensures multiset(Buffers(cache.cells, wider)) ==
            multiset(Buffers(cache.cells, family)) + multiset{wider[|family|].buf}
  {
    hide Cache.Valid, Entries;
    ghost var es, bufs := Entries(cache.cells), Bufs(family);
    assert (Replies(es) + bufs)[|es| + i] == family[i].buf;
    assert forall n :: n in Nodes(cache.cells) ==> allocated(n);
    var c := family[i].Clone();
    assert cache.Valid();
    wider := family + [c];
    FamilyGrows(family, c, iosz);
    hide Family;
    assert Bufs(wider) == bufs + [c.buf];
    assert Replies(es) + Bufs(wider) == (Replies(es) + bufs) + [c.buf];
    assert multiset((Replies(es) + bufs) + [c.buf]) == multiset(Replies(es) + bufs) + multiset{c.buf};
    assert c.buf !in Replies(es) + bufs && c.buf.Length == iosz;
    hide Owned;
    OwnedStays(Replies(es) + bufs, Replies(es) + Bufs(wider), c.buf, iosz);
    assert Buffers(cache.cells, wider) == Replies(es) + Bufs(wider);
  }
}
