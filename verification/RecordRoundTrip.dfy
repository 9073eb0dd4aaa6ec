/** The two halves together: what one end puts is what the other end gets. */
module RecordRoundTrip {
  import opened Bytes
  import opened Fragments
  import opened RecordWriter
  import opened RecordReader

  /** What a client does to a stream it writes. */
  datatype Action = PutWord(v: int) | PutData(data: seq<byte>) | EndRecord(sendnow: bool)

  /** The records a script ends, and the bytes of the record it leaves open. */
  function Play(a: Assembly, script: seq<Action>): (r: Assembly)
    decreases script
  {
    if script == [] then a else Play(PlayOne(a, script[0]), script[1..])
  }

  function PlayOne(a: Assembly, act: Action): Assembly {
    match act
    case PutWord(v) => a.(open := a.open + ToNet(v % 0x1_0000_0000))
    case PutData(d) => a.(open := a.open + d)
    case EndRecord(_) => Assembly(a.records + [a.open], [])
  }

  /** The fingers of a writer with a buffer of n bytes. */
  predicate Sits(n: nat, p: Fingers) {
    p.header + 4 <= p.out <= n && p.header + 4 < n && 8 <= n
  }

  /** Where an action leads. */
  function Move(n: nat, p: Fingers, act: Action): (q: Fingers)
    requires Sits(n, p)
    ensures Sits(n, q)
  {
    match act
    case PutWord(_) => AfterWord(n, p)
    case PutData(d) => AfterBytes(n, p, |d|)
    case EndRecord(now) => AfterEnd(n, p, now)
  }

  /** No word of the script is put where it would strand an empty fragment. */
  predicate NeverStrands(n: nat, p: Fingers, script: seq<Action>)
    requires Sits(n, p)
    decreases script
  {
    script == [] ||
    (!(script[0].PutWord? && StrandsAt(n, p)) && NeverStrands(n, Move(n, p, script[0]), script[1..]))
  }

  /**
   * A discipline that does not look at the buffer: words are put only at word positions
   * of the batch.  `phase` is the position modulo four, or None once a record of odd
   * length was left batched.
   */
  predicate Disciplined(phase: Option<nat>, script: seq<Action>)
    decreases script
  {
    script == [] ||
    ((script[0].PutWord? ==> phase == Some(0)) &&
     Disciplined(NextPhase(phase, script[0]), script[1..]))
  }

  function NextPhase(phase: Option<nat>, act: Action): Option<nat> {
    match act
    case PutWord(_) => phase
    case PutData(d) => if phase.Some? then Some((phase.value + |d|) % 4) else None
    case EndRecord(now) => if now || phase == Some(0) then Some(0) else None
  }

  predicate InPhase(phase: Option<nat>, finger: nat) {
    phase.Some? ==> finger % 4 == phase.value
  }

  /** The discipline is enough, whatever the size of the buffer. */
  lemma {:induction false} DisciplinedNeverStrands(n: nat, p: Fingers, phase: Option<nat>, script: seq<Action>)
    requires Sits(n, p) && n % 4 == 0 && InPhase(phase, p.out) && Disciplined(phase, script)
    ensures NeverStrands(n, p, script)
    decreases script
  {
    if script != [] {
      match script[0] {
        case PutWord(_) =>
        case PutData(d) =>
          AfterBytesPhase(n, p, |d|);
          if phase.Some? {
            SamePhase(p.out, phase.value, |d|);
          }
        case EndRecord(_) =>
      }
      DisciplinedNeverStrands(n, Move(n, p, script[0]), NextPhase(phase, script[0]), script[1..]);
    }
  }

  /** A script never takes an ended record back. */
  lemma {:induction false} PlayKeeps(a: Assembly, script: seq<Action>)
    ensures a.records <= Play(a, script).records
    decreases script
  {
    if script != [] {
      PlayKeeps(PlayOne(a, script[0]), script[1..]);
    }
  }

  method Perform(w: Writer, act: Action) returns (ok: bool)
    requires w.Valid()
    modifies w, w.buf, w.link
    ensures !ok ==> w.link.Broke()
    ensures !ok ==> RecordsIn(w.link.sent) <= PlayOne(old(Assembly(w.finished, w.current)), act).records
    ensures ok ==> w.Valid() && w.Here() == Move(w.buf.Length, old(w.Here()), act)
    ensures ok ==> (Readable(w.frags) <==> old(Readable(w.frags)) && !(act.PutWord? && old(w.Strands())))
    ensures ok ==> Assembly(w.finished, w.current) == PlayOne(old(Assembly(w.finished, w.current)), act)
  {
    hide Writer.Content, Readable, ToNet, RecordsIn;
    match act
    case PutWord(v) => ok := w.PutLong(v);
    case PutData(d) => ok := w.PutBytes(d);
    case EndRecord(now) => ok := w.EndOfRecord(now);
  }

  /**
   * Runs a whole script.  It can only fail by the connection dying, and then the receiver
   * has seen only records of the script.  The wire stays readable exactly when no word is
   * put where it strands a fragment.
   */
  method PerformAll(w: Writer, script: seq<Action>) returns (ok: bool)
    requires w.Valid()
    modifies w, w.buf, w.link
    ensures !ok ==> w.link.Broke()
    ensures !ok ==> RecordsIn(w.link.sent) <= Play(old(Assembly(w.finished, w.current)), script).records
    ensures ok ==> w.Valid()
    ensures ok ==>
      (Readable(w.frags) <==> old(Readable(w.frags)) && NeverStrands(w.buf.Length, old(w.Here()), script))
    ensures ok ==> Assembly(w.finished, w.current) == Play(old(Assembly(w.finished, w.current)), script)
    ensures ok && script != [] && script[|script| - 1] == EndRecord(true) ==> w.Flushed()
  {
    var i := 0;
    ghost var n := w.buf.Length;
    hide Readable, PlayOne, Writer.Content, RecordsIn, Move, StrandsAt;
    while i < |script|
      invariant 0 <= i <= |script|
      invariant w.Valid()
      invariant Readable(w.frags) && NeverStrands(n, w.Here(), script[i..]) <==>
                old(Readable(w.frags)) && NeverStrands(n, old(w.Here()), script)
      invariant Play(Assembly(w.finished, w.current), script[i..]) ==
                Play(old(Assembly(w.finished, w.current)), script)
      invariant 0 < i && script[i - 1] == EndRecord(true) ==> w.Flushed()
    {
      assert script[i..][1..] == script[i + 1..];
      ghost var a := Assembly(w.finished, w.current);
      ok := Perform(w, script[i]);
      if !ok {
        PlayKeeps(PlayOne(a, script[i]), script[i + 1..]);
        return;
      }
      i := i + 1;
    }
    return true;
  }

  /** Gets the current record a byte at a time, until it has no more. */
  method GetRecord(r: Reader) returns (data: seq<byte>)
    requires r.Valid()
    modifies r, r.buf, r.feed
    ensures r.Valid()
    ensures data == old(r.Rest()).payload
    ensures r.AtEnd() <==> old(r.Rest()).Complete?
    ensures r.AtEnd() ==> r.Ahead() == old(r.Rest()).after
  {
    hide Parse, Reader.Ahead, Reader.Placed;
    data := [];
    while true
      invariant r.Valid()
      invariant old(r.Rest()) == Prepend(data, r.Rest())
      decreases |r.Rest().payload|
    {
      ghost var p := r.Rest();
      var got, b := r.GetBytes(1);
      if !got {
        break;
      }
      assert p == Prepend(b, r.Rest());
      PrependTwice(data, b, r.Rest());
      data := data + b;
    }
  }

  /**
   * Reads a stream to its end.  Whatever the bytes are and however they arrive, what
   * comes out is exactly the complete records of the stream, in order.
   */
  method ReadAll(stream: seq<byte>, recvsize: nat) returns (records: seq<seq<byte>>)
    ensures records == RecordsIn(stream)
  {
    hide Parse, RecordsIn, Reader.Ahead, Reader.Placed;
    var feed := new Feed(stream);
    var r := new Reader(recvsize, feed);
    records := [];
    ParseEnd(stream);
    var more := r.SkipRecord();
    while more
      invariant r.Valid() && fresh(r) && fresh(r.buf) && fresh(r.feed)
      invariant more ==> r.fbtbc == 0 && !r.lastFrag
      invariant RecordsIn(stream) == records + if more then RecordsIn(r.Ahead()) else []
      decreases more, |r.Ahead()|
    {
      RecordsStep(r.Ahead());
      var data := GetRecord(r);
      more := r.AtEnd();
      if more {
        ParseEnd(r.Ahead());
        more := r.SkipRecord();
        records := records + [data];
      }
    }
  }

  /**
   * The round trip: every script of puts whose last act flushes, every pair of buffer
   * sizes, every way the system call splits the writes and every way the bytes arrive.
   * What comes out is always a beginning of what was put, and is all of it exactly when
   * the script never strands a fragment.  Only a connection that breaks stops it.
   */
  method RoundTrip(link: Link, script: seq<Action>, sendsize: nat, recvsize: nat)
    returns (ok: bool, records: seq<seq<byte>>)
    requires sendsize < 0x7fff_fff0 && link.sent == [] && !link.dead
    requires script != [] && script[|script| - 1] == EndRecord(true)
    modifies link
    ensures ok || link.Broke()
    ensures records == RecordsIn(link.sent) && records <= Play(Assembly([], []), script).records
    ensures ok ==> (records == Play(Assembly([], []), script).records <==>
                    NeverStrands(FixBufSize(sendsize), START, script))
    ensures ok && Disciplined(Some(0), script) ==> records == Play(Assembly([], []), script).records
  {
    hide RecordsIn, Play, Writer.Content, FixBufSize, Readable;
    var w := new Writer(sendsize, link);
    ok := PerformAll(w, script);
    if ok {
      FlushedReadsBackIff(w);
      OnlyFinishedRecordsAreSeen(w);
      if Disciplined(Some(0), script) {
        DisciplinedNeverStrands(w.buf.Length, START, Some(0), script);
      }
    }
    records := ReadAll(link.sent, recvsize);
  }

  /** Off word positions a record is lost: 91 bytes batched, then a word. */
  method StrandedRun() returns (wire: seq<byte>, ended: seq<seq<byte>>)
    ensures ended == [seq(91, _ => 0), ToNet(7)] && RecordsIn(wire) != ended
  {
    hide Writer.Content, Readable, RecordsIn;
    var link := new Link(true);
    var w := new Writer(100, link);
    var d := seq(91, _ => 0);
    var ok := w.PutBytes(d);
    assert w.current == d;
    ok := w.EndOfRecord(false);
    assert w.Strands();
    ok := w.PutLong(7);
    assert w.current == ToNet(7);
    ok := w.EndOfRecord(true);
    FlushedReadsBackIff(w);
    wire, ended := link.sent, [d, ToNet(7)];
  }
}
