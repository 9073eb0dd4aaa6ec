/** Filters and streams together. */
module XdrEndToEnd {
  import opened Bytes
  import opened Fragments
  import opened RecordWriter
  import opened RecordReader
  import opened XdrData
  import opened XdrCodec
  import opened XdrStreams
  import opened XdrFilters
  import opened XdrLayout

  /** The size of an encoding, found by encoding into the stream that only counts. */
  method SizeOf(prog: Program, ty: Ty, v: Val) returns (n: nat)
    ensures match Enc(prog, ty, v)
            case Some(bytes) => n == |bytes| % 0x1_0000_0000
            case None => n == 0
  {
    var z := new SizeStream();
    var ok := Encode(Size(z), prog, ty, v);
    n := if ok then z.handy else 0;
  }

  /** Encoding into a buffer and decoding it again. */
  method ThroughMemory(prog: Program, ty: Ty, v: Val, size: word) returns (ok: bool, w: Val)
    ensures ok <==> Fits(prog, ty, v) && Enc(prog, ty, v).Some? && |Enc(prog, ty, v).value| <= size
    ensures ok ==> w == v
  {
    EncodableIff(prog, ty, v);
    hide Enc, Dec, Fits;
    w := VBool(false);
    var buf := new byte[size];
    var out := new MemStream(buf, size);
    assert Mem(out).Written() == [];
    ok := Encode(Mem(out), prog, ty, v);
    if !ok {
      return;
    }
    assert buf[..out.pos] == Enc(prog, ty, v).value;
    RoundTrip(prog, ty, v, buf[out.pos..]);
    assert buf[..out.pos] + buf[out.pos..] == buf[..];
    var in_ := new MemStream(buf, size);
    assert in_.Left() == buf[..];
    ok, w := Decode(MemIn(in_), prog, ty);
  }

  method ToMemory(prog: Program, ty: Ty, v: Val, size: word) returns (r: Option<seq<byte>>)
    ensures r.Some? <==> Fits(prog, ty, v) && Enc(prog, ty, v).Some? && |Enc(prog, ty, v).value| <= size
    ensures r.Some? ==> r == Enc(prog, ty, v)
  {
    EncodableIff(prog, ty, v);
    hide Enc, Fits;
    var buf := new byte[size];
    var out := new MemStream(buf, size);
    assert Mem(out).Written() == [];
    var ok := Encode(Mem(out), prog, ty, v);
    assert ok ==> buf[..out.pos] == Enc(prog, ty, v).value;
    r := if ok then Some(buf[..out.pos]) else None;
  }

  /** Encodes a value as a record; it fails only if there is no encoding or the connection breaks. */
  method ToRecord(link: Link, prog: Program, ty: Ty, v: Val, sendsize: nat) returns (ok: bool)
    requires sendsize < 0x7fff_fff0 && link.sent == [] && !link.dead
    modifies link
    ensures ok ==> Enc(prog, ty, v).Some? && RecordsIn(link.sent) == [Enc(prog, ty, v).value]
    ensures !ok ==> !Fits(prog, ty, v) || link.Broke()
  {
    hide Enc, Fits, Readable;
    var w := new Writer(sendsize, link);
    ok := SendAll(w, prog, ty, [v]);
    if ok {
      FlushedReadsBackIff(w);
      assert w.finished == [Enc(prog, ty, [v][0]).value];
    }
  }

  /**
   * The three encoders agree: the counting stream counts exactly the bytes the memory
   * stream stores, a whole number of units, and the record stream carries those bytes.
   */
  method ThroughAll(link: Link, prog: Program, ty: Ty, v: Val, size: word, sendsize: nat)
    returns (stored: Option<seq<byte>>, count: nat, sent: bool)
    requires sendsize < 0x7fff_fff0 && link.sent == [] && !link.dead
    modifies link
    ensures stored.Some? <==> Fits(prog, ty, v) && Enc(prog, ty, v).Some? && |Enc(prog, ty, v).value| <= size
    ensures stored.Some? ==> stored == Enc(prog, ty, v) && count == |stored.value| && count % 4 == 0
    ensures sent ==> Enc(prog, ty, v).Some? && RecordsIn(link.sent) == [Enc(prog, ty, v).value]
    ensures !sent ==> !Fits(prog, ty, v) || link.Broke()
  {
    hide Enc, Fits, RecordsIn;
    WholeUnits(prog, ty, v);
    count := SizeOf(prog, ty, v);
    stored := ToMemory(prog, ty, v, size);
    sent := ToRecord(link, prog, ty, v, sendsize);
  }

  ghost predicate Encodable(prog: Program, ty: Ty, vs: seq<Val>) {
    forall j :: 0 <= j < |vs| ==> Fits(prog, ty, vs[j])
  }

  /** Sends a value as a record of its own, at once or batched. */
  method SendOne(w: Writer, prog: Program, ty: Ty, v: Val, now: bool) returns (ok: bool)
    requires w.Valid() && Readable(w.frags) && w.Aligned() && w.current == []
    modifies w, w.buf, w.link
    ensures ok ==> w.Valid() && Readable(w.frags) && w.Aligned() && w.current == []
    ensures ok ==> Enc(prog, ty, v).Some? && w.finished == old(w.finished) + [Enc(prog, ty, v).value]
    ensures ok && now ==> w.Flushed()
    ensures !ok ==> !Fits(prog, ty, v) || w.link.Broke()
  {
    EncodableIff(prog, ty, v);
    hide Fits, Enc, Readable, Writer.Content;
    ok := Encode(Rec(w), prog, ty, v);
    if !ok {
      return;
    }
    assert w.current == Enc(prog, ty, v).value;
    WholeUnits(prog, ty, v);
    ok := w.EndOfRecord(now);
  }

  /**
   * Sends each value as a record of its own; any of them may be left batched.  It fails
   * only if some value has no encoding or the connection breaks.
   */
  method SendAll(w: Writer, prog: Program, ty: Ty, vs: seq<Val>) returns (ok: bool)
    requires w.Valid() && Readable(w.frags) && w.Aligned()
    requires w.finished == [] && w.current == []
    requires vs != []
    modifies w, w.buf, w.link
    ensures ok ==> w.Valid() && Readable(w.frags) && w.Flushed()
    ensures ok ==> |w.finished| == |vs| && Encodable(prog, ty, vs)
    ensures ok ==> forall j :: 0 <= j < |vs| ==> Enc(prog, ty, vs[j]) == Some(w.finished[j])
    ensures !ok ==> !Encodable(prog, ty, vs) || w.link.Broke()
  {
    hide Enc, Fits, Readable, Writer.Valid, Writer.Flushed, Writer.Aligned;
    var i := 0;
    while i < |vs|
      invariant 0 <= i <= |vs|
      invariant w.Valid() && Readable(w.frags) && w.Aligned()
      invariant w.current == [] && |w.finished| == i
      invariant forall j :: 0 <= j < i ==> Enc(prog, ty, vs[j]) == Some(w.finished[j])
      invariant forall j :: 0 <= j < i ==> Fits(prog, ty, vs[j])
      invariant 0 < i == |vs| ==> w.Flushed()
    {
      var now :| i + 1 == |vs| ==> now;
      EncodableIff(prog, ty, vs[i]);
      ok := SendOne(w, prog, ty, vs[i], now);
      if !ok {
        return;
      }
      i := i + 1;
    }
    return true;
  }

  /** Receives n records, decoding one value from each. */
  method ReceiveAll(stream: seq<byte>, recvsize: nat, prog: Program, ty: Ty, n: nat, ghost vs: seq<Val>)
    returns (got: seq<Val>)
    requires |RecordsIn(stream)| == |vs| == n
    requires forall j :: 0 <= j < n ==> Enc(prog, ty, vs[j]) == Some(RecordsIn(stream)[j])
    ensures got == vs
  {
    ghost var rs := RecordsIn(stream);
    hide Parse, RecordsIn, Enc, Dec, Reader.Ahead, Reader.Placed;
    var feed := new Feed(stream);
    var r := new Reader(recvsize, feed);
    ParseEnd(stream);
    assert rs[0..] == rs;
    got := [];
    var i := 0;
    while i < n
      invariant 0 <= i <= n && got == vs[..i]
      invariant fresh(r) && fresh(r.buf) && fresh(r.feed) && r.Valid()
      invariant r.Rest().Complete? && RecordsIn(r.Rest().after) == rs[i..]
    {
      var ok := r.SkipRecord();
      RecordsStep(r.Ahead());
      assert r.Rest().payload == rs[i] && rs[i..][1..] == rs[i + 1..];
      RoundTrip(prog, ty, vs[i], []);
      assert rs[i] + [] == rs[i];
      var v;
      ok, v := Decode(RecIn(r), prog, ty);
      got := got + [v];
      i := i + 1;
    }
  }

  /**
   * End to end: a list of values sent as records over a connection, in any batching
   * and with any buffer sizes, arrives as the same list, whatever the chunks.  Over a
   * connection that does not break this happens exactly when every value has an encoding.
   */
  method EndToEnd(link: Link, prog: Program, ty: Ty, vs: seq<Val>, sendsize: nat, recvsize: nat)
    returns (ok: bool, got: seq<Val>)
    requires sendsize < 0x7fff_fff0 && vs != [] && link.sent == [] && !link.dead
    modifies link
    ensures ok ==> got == vs && Encodable(prog, ty, vs)
    ensures !ok ==> !Encodable(prog, ty, vs) || link.Broke()
  {
    hide Enc, Fits, RecordsIn, Readable, Writer.Content;
    var w := new Writer(sendsize, link);
    ok := SendAll(w, prog, ty, vs);
    if !ok {
      return false, [];
    }
    FlushedReadsBackIff(w);
    got := ReceiveAll(link.sent, recvsize, prog, ty, |vs|, vs);
  }
}
