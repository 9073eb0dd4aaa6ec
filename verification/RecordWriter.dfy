/** The outgoing half of a record stream, and the connection it writes to. */
module RecordWriter {
  import opened Bytes
  import opened Fragments

  /** The sending side of a connection, as writetcp sees it. */
  class Link {
    const reliable: bool    // the system call never fails
    var sent: seq<byte>
    var dead: bool

    constructor (reliable: bool)
      ensures this.reliable == reliable && sent == [] && !dead
    {
      this.reliable := reliable;
      sent, dead := [], false;
    }

    /** The connection died, which only an unreliable one does. */
    ghost predicate Broke()
      reads this
    {
      dead && !reliable
    }

    /**
     * Writes everything or reports -1 and marks the connection dead; the system call
     * may take any number of bytes each time, and may fail at any point unless the
     * connection is reliable.
     */
    method Write(data: seq<byte>) returns (n: int)
      modifies this
      ensures n == |data| || n == -1
      ensures n != -1 ==> sent == old(sent) + data && dead == old(dead)
      ensures n == -1 ==> Broke() && old(sent) <= sent <= old(sent) + data
    {
      var i := 0;
      while i < |data|
        invariant 0 <= i <= |data|
        invariant sent == old(sent) + data[..i] && dead == old(dead)
      {
        var fails :| fails ==> !reliable;
        if fails {
          dead := true;
          return -1;
        }
        var w :| 1 <= w <= |data| - i;
        assert data[..i] + data[i..i + w] == data[..i + w];
        sent := sent + data[i..i + w];
        i := i + w;
      }
      return |data|;
    }
  }

  /** The buffer size a stream really gets: small requests get 4000, the rest are rounded up. */
  function FixBufSize(s: nat): (r: nat)
    ensures 100 <= r && r % 4 == 0
    ensures 100 <= s ==> s <= r < s + 4
    ensures s < 100 ==> r == 4000
    ensures s < 0x7fff_fff0 ==> r < LAST_FRAG
  {
    var s := if s < 100 then 4000 else s;
    (s + 3) / 4 * 4
  }

  /** Stores a word in network order at an offset of a buffer. */
  method StoreWord(buf: array<byte>, at: nat, w: word)
    requires at + 4 <= buf.Length
    modifies buf
    ensures buf[..] == old(buf[..at]) + ToNet(w) + old(buf[at + 4..])
  {
    var s := ToNet(w);
    buf[at], buf[at + 1], buf[at + 2], buf[at + 3] := s[0], s[1], s[2], s[3];
  }

  /** Copies bytes into a buffer at an offset. */
  method CopyIn(buf: array<byte>, at: nat, data: seq<byte>)
    requires at + |data| <= buf.Length
    modifies buf
    ensures buf[..] == old(buf[..at]) + data + old(buf[at + |data|..])
  {
    for i := 0 to |data|
      invariant forall k :: 0 <= k < buf.Length && !(at <= k < at + i) ==> buf[k] == old(buf[k])
      invariant forall k :: 0 <= k < i ==> buf[at + k] == data[k]
    {
      buf[at + i] := data[i];
    }
  }

  lemma SamePhase(a: nat, b: nat, n: nat)
    requires a % 4 == b % 4
    ensures (a + n) % 4 == (b + n) % 4
  {
  }

  /** Bytes stored at `at` leave what precedes alone and extend what follows a header at `h`. */
  lemma BytesStored(b: seq<byte>, b': seq<byte>, h: nat, at: nat, data: seq<byte>)
    requires h + 4 <= at && at + |data| <= |b|
    requires b' == b[..at] + data + b[at + |data|..]
    ensures |b'| == |b| && b'[..h] == b[..h]
    ensures b'[h + 4..at + |data|] == b[h + 4..at] + data
  {
  }

  /** Where a writer is in its buffer. */
  datatype Fingers = Fingers(out: nat, header: nat, sent: bool)

  const START := Fingers(4, 0, false)

  /** Where a word put, a byte put and an end of record lead in a buffer of n bytes. */
  function AfterWord(n: nat, p: Fingers): Fingers {
    if p.out + 4 > n then Fingers(8, 0, true) else p.(out := p.out + 4)
  }

  function AfterBytes(n: nat, p: Fingers, len: nat): (q: Fingers)
    requires p.out <= n && 4 < n
    ensures q.out <= n && (q.header == p.header || q.header == 0)
    ensures p.header + 4 <= p.out ==> q.header + 4 <= q.out
    decreases len, p.out
  {
    if p.out + len <= n then p.(out := p.out + len)
    else AfterBytes(n, Fingers(4, 0, true), len - (n - p.out))
  }

  lemma {:induction false} AfterBytesPhase(n: nat, p: Fingers, len: nat)
    requires p.out <= n && 4 < n && n % 4 == 0
    ensures AfterBytes(n, p, len).out % 4 == (p.out + len) % 4
    decreases len, p.out
  {
    if p.out + len > n {
      var more := len - (n - p.out);
      AfterBytesPhase(n, Fingers(4, 0, true), more);
      assert p.out + len == n + more;
      SamePhase(n, 4, more);
    }
  }

  function AfterEnd(n: nat, p: Fingers, sendnow: bool): Fingers {
    if sendnow || p.sent || p.out + 4 >= n then START else Fingers(p.out + 4, p.out, false)
  }

  /** A word put here would close an empty fragment in the middle of a record. */
  predicate StrandsAt(n: nat, p: Fingers) {
    p.out == p.header + 4 && p.out + 4 > n
  }

  class Writer {
    const buf: array<byte>    // out_base up to out_boundry
    const link: Link
    var outFinger: nat        // next output position
    var fragHeader: nat       // where the header of the current fragment goes
    var fragSent: bool        // a fragment of the current record has been sent

    ghost var frags: seq<Fragment>        // every fragment closed so far
    ghost var finished: seq<seq<byte>>    // every record ended so far
    ghost var current: seq<byte>          // the bytes put since then

    ghost predicate Geometry()
      reads this
    {
      && 100 <= buf.Length < LAST_FRAG && buf.Length % 4 == 0
      && fragHeader + 4 <= outFinger <= buf.Length
      && fragHeader + 4 < buf.Length
    }

    /**
     * The bytes sent and the buffer up to the current header are whole fragments; they
     * carry the finished records and a prefix of the current one, whose other bytes
     * follow the current header.
     */
    ghost predicate Content()
      requires Geometry()
      reads this, buf, link
    {
      && Sized(frags)
      && link.sent + buf[..fragHeader] == Wire(frags)
      && var a := Assemble([], frags);
         a.records == finished && current == a.open + buf[fragHeader + 4..outFinger]
    }

    ghost predicate Valid()
      reads this, buf, link
    {
      && Geometry() && Content()
      && (fragSent <==> frags != [] && !frags[|frags| - 1].last)
      && (fragSent ==> fragHeader == 0)
    }

    /** The next word falls on a word boundary. */
    predicate Aligned()
      reads this
    {
      outFinger % 4 == 0
    }

    function Here(): Fingers
      reads this
    {
      Fingers(outFinger, fragHeader, fragSent)
    }

    /** A word put now would close an empty fragment in the middle of a record. */
    predicate Strands()
      reads this
    {
      StrandsAt(buf.Length, Here())
    }

    ghost predicate Flushed()
      reads this
    {
      Here() == START
    }

    constructor (sendsize: nat, link: Link)
      requires sendsize < 0x7fff_fff0
      requires link.sent == []
      ensures Valid() && Aligned() && Flushed() && Readable(frags)
      ensures finished == [] && current == []
      ensures this.link == link && buf.Length == FixBufSize(sendsize) && fresh(buf)
    {
      buf := new byte[FixBufSize(sendsize)];
      this.link := link;
      outFinger, fragHeader, fragSent := 4, 0, false;
      frags, finished, current := [], [], [];
    }

    /** The fragment that closing now would produce. */
    ghost function Closing(eor: bool): Fragment
      requires fragHeader + 4 <= outFinger <= buf.Length
      reads this, buf
    {
      Fragment(buf[fragHeader + 4..outFinger], eor)
    }

    /** Patches the header of the current fragment; the buffer then holds the whole fragment. */
    method Patch(eor: bool)
      requires Geometry() && Content()
      modifies buf
      ensures Geometry() && Content() && Closing(eor) == old(Closing(eor))
      ensures buf[..outFinger] == old(buf[..fragHeader]) + FragmentBytes(Closing(eor))
    {
      var len := outFinger - fragHeader - 4;
      StoreWord(buf, fragHeader, Header(len, eor));
      assert buf[fragHeader + 4..outFinger] == old(buf[fragHeader + 4..outFinger]);
      assert buf[..fragHeader] == old(buf[..fragHeader]);
    }

    method FlushOut(eor: bool) returns (ok: bool)
      requires Geometry() && Content()
      modifies this`outFinger, this`fragHeader, this`frags, buf, link
      ensures link.dead <==> old(link.dead) || !ok
      ensures !ok ==> link.Broke()
      ensures ok ==> fragHeader == 0 && outFinger == 4
      ensures ok ==> frags == old(frags) + [old(Closing(eor))]
      ensures ok ==> Sized(frags) && link.sent == Wire(frags)
      ensures !ok ==> RecordsIn(link.sent) <= Assemble([], old(frags) + [old(Closing(eor))]).records
    {
      hide FragmentBytes, Assemble;
      Patch(eor);
      ghost var f := Closing(eor);
      assert (link.sent + old(buf[..fragHeader])) + FragmentBytes(f) == link.sent + buf[..outFinger];
      ghost var sent := link.sent;
      var n := link.Write(buf[..outFinger]);
      WireAppend(frags, f);
      if n != outFinger {
        SeenRecords(frags + [f], link.sent);
        return false;
      }
      frags := frags + [f];
      fragHeader, outFinger := 0, 4;
      return true;
    }

    /** Sends the buffer in the middle of a record, when it has no room for a word. */
    method Spill() returns (ok: bool)
      requires Valid() && outFinger + 4 > buf.Length
      modifies this`outFinger, this`fragHeader, this`fragSent, this`frags, buf, link
      ensures link.dead <==> old(link.dead) || !ok
      ensures !ok ==> link.Broke()
      ensures ok ==> Valid() && current == old(current)
      ensures !ok ==> RecordsIn(link.sent) <= finished
      ensures ok ==> Here() == Fingers(4, 0, true) && frags == old(frags) + [old(Closing(false))]
      ensures ok ==> (Readable(frags) <==> old(Readable(frags)) && old(outFinger > fragHeader + 4))
    {
      hide Wire, Readable;
      AssembleAppend([], frags, Closing(false));
      ReadableAppend(frags, Closing(false));
      fragSent := true;
      ok := FlushOut(false);
    }

    /**
     * Puts a word.  The only way to emit a fragment that a reader would reject is to
     * start from a state where Strands holds.
     */
    method PutLong(v: int) returns (ok: bool)
      requires Valid()
      modifies this, buf, link
      ensures link.dead <==> old(link.dead) || !ok
      ensures !ok ==> link.Broke()
      ensures finished == old(finished) && (ok ==> Valid())
      ensures !ok ==> RecordsIn(link.sent) <= old(finished)
      ensures ok ==> current == old(current) + ToNet(v % 0x1_0000_0000)
      ensures ok ==> (Readable(frags) <==> old(Readable(frags)) && !old(Strands()))
      ensures ok ==> Here() == AfterWord(buf.Length, old(Here()))
      ensures old(outFinger) + 4 <= buf.Length ==> ok && link.sent == old(link.sent) && frags == old(frags)
    {
      hide Content, Readable;
      if outFinger + 4 > buf.Length {
        ok := Spill();
        if !ok {
          return;
        }
      }
      PutChunk(ToNet(v % 0x1_0000_0000));
      return true;
    }

    /** Puts bytes, as many at a time as the buffer holds. */
    method PutBytes(data: seq<byte>) returns (ok: bool)
      requires Valid()
      modifies this, buf, link
      ensures link.dead <==> old(link.dead) || !ok
      ensures !ok ==> link.Broke()
      ensures finished == old(finished) && (ok ==> Valid())
      ensures !ok ==> RecordsIn(link.sent) <= old(finished)
      ensures ok ==> current == old(current) + data
      ensures ok ==> (Readable(frags) <==> old(Readable(frags)))
      ensures ok ==> outFinger % 4 == (old(outFinger) + |data|) % 4
      ensures ok ==> Here() == AfterBytes(buf.Length, old(Here()), |data|)
      ensures old(outFinger) + |data| <= buf.Length ==> ok && link.sent == old(link.sent)
    {
      hide Content, Readable;
      var done := 0;
      while done < |data|
        invariant 0 <= done <= |data|
        invariant Valid() && finished == old(finished)
        invariant current == old(current) + data[..done]
        invariant link.dead == old(link.dead)
        invariant Readable(frags) <==> old(Readable(frags))
        invariant AfterBytes(buf.Length, old(Here()), |data|) == AfterBytes(buf.Length, Here(), |data| - done)
        invariant old(outFinger) + |data| <= buf.Length ==>
          outFinger == old(outFinger) + done && link.sent == old(link.sent)
        decreases |data| - done, outFinger == buf.Length
      {
        var n := buf.Length - outFinger;
        n := if |data| - done < n then |data| - done else n;
        Resume(old(current), data, done, n);
        PutChunk(data[done..done + n]);
        done := done + n;
        if outFinger == buf.Length && done < |data| {
          ok := Spill();
          if !ok {
            return;
          }
        }
      }
      assert data[..done] == data;
      AfterBytesPhase(buf.Length, old(Here()), |data|);
      return true;
    }

    /** Puts bytes that fit in the buffer. */
    method PutChunk(chunk: seq<byte>)
      requires Valid() && outFinger + |chunk| <= buf.Length
      modifies this`outFinger, this`current, buf
      ensures Valid() && current == old(current) + chunk
      ensures outFinger == old(outFinger) + |chunk|
    {
      hide Wire, Assemble, Sized;
      CopyIn(buf, outFinger, chunk);
      BytesStored(old(buf[..]), buf[..], fragHeader, outFinger, chunk);
      ghost var open := Assemble([], frags).open;
      assert (open + old(buf[fragHeader + 4..outFinger])) + chunk ==
             open + (old(buf[fragHeader + 4..outFinger]) + chunk);
      outFinger := outFinger + |chunk|;
      current := current + chunk;
    }

    /** Ends the current record, sending the buffer at once or leaving it batched. */
    method EndOfRecord(sendnow: bool) returns (ok: bool)
      requires Valid()
      modifies this, buf, link
      ensures link.dead <==> old(link.dead) || !ok
      ensures !ok ==> link.Broke()
      ensures ok ==> Valid() && finished == old(finished) + [old(current)] && current == []
      ensures !ok ==> RecordsIn(link.sent) <= old(finished) + [old(current)]
      ensures ok ==> (Readable(frags) <==> old(Readable(frags)))
      ensures ok ==> Here() == AfterEnd(buf.Length, old(Here()), sendnow)
      ensures ok && (sendnow || old(fragSent) || old(outFinger) + 4 >= buf.Length) ==>
        Here() == Fingers(4, 0, false) && link.sent == Wire(frags)
      ensures !sendnow && !old(fragSent) && old(outFinger) + 4 < buf.Length ==>
        ok && link.sent == old(link.sent)
        && Here() == Fingers(old(outFinger) + 4, old(outFinger), false)
      ensures ok ==> frags == old(frags) + [old(Closing(true))]
    {
      hide FragmentBytes, Wire, Assemble, Readable;
      ghost var f := Closing(true);
      AssembleAppend([], frags, f);
      ReadableAppend(frags, f);
      if sendnow || fragSent || outFinger + 4 >= buf.Length {
        fragSent := false;
        ok := FlushOut(true);
        finished, current := finished + [current], [];
        return;
      }
      Patch(true);
      WireAppend(frags, f);
      assert (link.sent + old(buf[..fragHeader])) + FragmentBytes(f) == link.sent + buf[..outFinger];
      frags := frags + [f];
      finished, current := finished + [current], [];
      fragHeader := outFinger;
      outFinger := outFinger + 4;
      return true;
    }
  }

  /** At any moment a receiver can see only records that have been ended. */
  lemma OnlyFinishedRecordsAreSeen(w: Writer)
    requires w.Valid()
    ensures RecordsIn(w.link.sent) <= w.finished
  {
    SeenRecords(w.frags, w.link.sent);
  }

  /** What a flushed writer has sent reads back completely exactly when it never stranded a fragment. */
  lemma FlushedReadsBackIff(w: Writer)
    requires w.Valid() && w.Flushed()
    ensures RecordsIn(w.link.sent) == w.finished <==> Readable(w.frags)
  {
    hide RecordsIn, Assemble, Readable;
    assert w.link.sent + w.buf[..0] == w.link.sent;
    ReadsBackIff(w.frags);
  }

  /** The XDR discipline keeps every word put away from the state that strands a fragment. */
  lemma AlignedNeverStrands(w: Writer)
    requires w.Geometry() && w.Aligned()
    ensures !w.Strands()
  {
  }
}
