/**
 * The streams a filter can be run over.  Sink and Source stand for the operation
 * tables of the C streams: one constructor for each table.
 */
module XdrStreams {
  import opened Bytes
  import opened Fragments
  import RecordWriter
  import RecordReader

  /** A cursor over a buffer in memory. */
  class MemStream {
    const buf: array<byte>    // x_base and on
    var pos: nat              // x_private, as an offset from x_base
    var handy: nat            // bytes left after it

    ghost predicate Valid()
      reads this
    {
      pos + handy <= buf.Length && handy < 0x1_0000_0000
    }

    ghost function Limit(): nat
      reads this
    {
      pos + handy
    }

    constructor (addr: array<byte>, size: word)
      requires size <= addr.Length
      ensures Valid() && buf == addr && pos == 0 && handy == size
    {
      buf, pos, handy := addr, 0, size;
    }

    /** Stores bytes at the cursor, or refuses and leaves everything as it was. */
    method PutBytes(data: seq<byte>) returns (ok: bool)
      requires Valid()
      modifies this, buf
      ensures Valid() && Limit() == old(Limit())
      ensures ok <==> |data| <= old(handy)
      ensures ok ==> pos == old(pos) + |data| && buf[..pos] == old(buf[..pos]) + data
      ensures ok ==> buf[pos..] == old(buf[pos + |data|..])
      ensures !ok ==> pos == old(pos) && buf[..] == old(buf[..])
    {
      if handy < |data| {
        return false;
      }
      RecordWriter.CopyIn(buf, pos, data);
      Stored(old(buf[..]), buf[..], pos, data);
      handy := handy - |data|;
      pos := pos + |data|;
      return true;
    }

    method PutLong(v: int) returns (ok: bool)
      requires Valid()
      modifies this, buf
      ensures Valid() && Limit() == old(Limit())
      ensures ok <==> 4 <= old(handy)
      ensures ok ==> pos == old(pos) + 4
      ensures ok ==> buf[..pos] == old(buf[..pos]) + ToNet(v % 0x1_0000_0000)
      ensures ok ==> buf[pos..] == old(buf[pos + 4..])
      ensures !ok ==> pos == old(pos) && buf[..] == old(buf[..])
    {
      if handy < 4 {
        return false;
      }
      RecordWriter.StoreWord(buf, pos, v % 0x1_0000_0000);
      Stored(old(buf[..]), buf[..], pos, ToNet(v % 0x1_0000_0000));
      handy := handy - 4;
      pos := pos + 4;
      return true;
    }

    /** The bytes that can still be got. */
    ghost function Left(): (s: seq<byte>)
      requires Valid()
      reads this, buf
    {
      buf[pos..pos + handy]
    }

    /** Takes the next bytes, or refuses and leaves everything as it was. */
    method GetBytes(len: nat) returns (ok: bool, data: seq<byte>)
      requires Valid()
      modifies this
      ensures Valid() && Limit() == old(Limit())
      ensures ok <==> len <= |old(Left())|
      ensures ok ==> data == old(Left())[..len] && Left() == old(Left())[len..]
      ensures !ok ==> pos == old(pos)
    {
      if handy < len {
        return false, [];
      }
      RecordReader.TakeBuffered(buf[..], pos, pos + handy, [], len);
      assert Left() + [] == Left() && buf[pos + len..pos + handy] + [] == buf[pos + len..pos + handy];
      data := buf[pos..pos + len];
      handy := handy - len;
      pos := pos + len;
      return true, data;
    }

    method GetLong() returns (ok: bool, v: int32)
      requires Valid()
      modifies this
      ensures Valid() && Limit() == old(Limit())
      ensures ok <==> 4 <= |old(Left())|
      ensures ok ==> v == Signed(FromNet(old(Left())[..4])) && Left() == old(Left())[4..]
      ensures !ok ==> pos == old(pos)
    {
      if handy < 4 {
        return false, 0;
      }
      v := Signed(FromNet(buf[pos..pos + 4]));
      handy := handy - 4;
      pos := pos + 4;
      return true, v;
    }

    /** Moves the cursor anywhere up to the limit, which never moves. */
    method SetPos(to: word) returns (ok: bool)
      requires Valid() && Limit() < 0x1_0000_0000
      modifies this
      ensures Valid() && Limit() == old(Limit())
      ensures ok <==> to <= Limit()
      ensures pos == if ok then to else old(pos)
    {
      var last := pos + handy;
      if to > last {
        return false;
      }
      pos := to;
      handy := last - to;
      return true;
    }

    /** Reserves len bytes in place and says where they start, if they are there. */
    method Inline(len: word) returns (at: Option<nat>)
      requires Valid()
      modifies this
      ensures Valid() && Limit() == old(Limit())
      ensures at == if len <= old(handy) then Some(old(pos)) else None
      ensures pos == old(pos) + if at.Some? then len else 0
    {
      if handy >= len {
        handy := handy - len;
        at := Some(pos);
        pos := pos + len;
      } else {
        at := None;
      }
    }
  }

  lemma Stored(b: seq<byte>, b': seq<byte>, at: nat, data: seq<byte>)
    requires at + |data| <= |b| && b' == b[..at] + data + b[at + |data|..]
    ensures b'[..at + |data|] == b[..at] + data
    ensures b'[at + |data|..] == b[at + |data|..]
  {
  }

  /** The stream that stores nothing and only counts, in a 32-bit counter. */
  class SizeStream {
    var handy: word
    ghost var written: seq<byte>

    ghost predicate Valid()
      reads this
    {
      handy == |written| % 0x1_0000_0000
    }

    constructor ()
      ensures Valid() && written == []
    {
      handy := 0;
      written := [];
    }

    method PutLong(v: int) returns (ok: bool)
      requires Valid()
      modifies this
      ensures Valid() && ok && written == old(written) + ToNet(v % 0x1_0000_0000)
    {
      handy := (handy + 4) % 0x1_0000_0000;
      written := written + ToNet(v % 0x1_0000_0000);
      return true;
    }

    method PutBytes(data: seq<byte>) returns (ok: bool)
      requires Valid()
      modifies this
      ensures Valid() && ok && written == old(written) + data
    {
      handy := (handy + |data|) % 0x1_0000_0000;
      written := written + data;
      return true;
    }
  }

  datatype Bounds = Bounds(limit: nat, finished: seq<seq<byte>>)

  /** Where an encoding filter puts its bytes. */
  datatype Sink = Mem(m: MemStream) | Size(z: SizeStream) | Rec(w: RecordWriter.Writer) {

    ghost function Repr(): set<object> {
      match this
      case Mem(m) => {m, m.buf}
      case Size(z) => {z}
      case Rec(w) => {w, w.buf, w.link}
    }

    ghost predicate Valid()
      reads Repr()
    {
      match this
      case Mem(m) => m.Valid()
      case Size(z) => z.Valid()
      case Rec(w) => w.Valid() && Readable(w.frags) && w.outFinger % 4 == |w.current| % 4
    }

    /** What has been put: in the buffer, in principle, or in the current record. */
    ghost function Written(): (s: seq<byte>)
      requires Valid()
      reads Repr()
    {
      match this
      case Mem(m) => m.buf[..m.pos]
      case Size(z) => z.written
      case Rec(w) => w.current
    }

    /** What putting never changes: the end of the buffer, or the records before this one. */
    ghost function Kept(): Bounds
      reads Repr()
    {
      match this
      case Mem(m) => Bounds(m.Limit(), [])
      case Size(_) => Bounds(0, [])
      case Rec(w) => Bounds(0, w.finished)
    }

    /** The stream cannot take `total` bytes. */
    ghost predicate Refuses(total: nat)
      reads Repr()
    {
      match this
      case Mem(_) => total > Kept().limit
      case Size(_) => false
      case Rec(w) => w.link.Broke()
    }

    method PutLong(v: int) returns (ok: bool)
      requires Valid() && |Written()| % 4 == 0
      modifies Repr()
      ensures ok ==> Valid() && Written() == old(Written()) + ToNet(v % 0x1_0000_0000)
      ensures !ok ==> Refuses(|old(Written())| + 4)
      ensures Kept() == old(Kept())
    {
      hide RecordWriter.Writer.Content, Readable, ToNet;
      match this
      case Mem(m) => ok := m.PutLong(v);
      case Size(z) => ok := z.PutLong(v);
      case Rec(w) =>
        RecordWriter.AlignedNeverStrands(w);
        RecordWriter.SamePhase(w.outFinger, |w.current|, 4);
        ok := w.PutLong(v);
    }

    method PutBytes(data: seq<byte>) returns (ok: bool)
      requires Valid()
      modifies Repr()
      ensures ok ==> Valid() && Written() == old(Written()) + data
      ensures !ok ==> Refuses(|old(Written())| + |data|)
      ensures Kept() == old(Kept())
    {
      hide RecordWriter.Writer.Content, Readable;
      match this
      case Mem(m) => ok := m.PutBytes(data);
      case Size(z) => ok := z.PutBytes(data);
      case Rec(w) =>
        RecordWriter.SamePhase(w.outFinger, |w.current|, |data|);
        ok := w.PutBytes(data);
    }
  }

  /** Where a decoding filter gets its bytes. */
  datatype Source = MemIn(m: MemStream) | RecIn(r: RecordReader.Reader) {

    ghost function Repr(): set<object> {
      match this
      case MemIn(m) => {m, m.buf}
      case RecIn(r) => {r, r.buf, r.feed}
    }

    ghost predicate Valid()
      reads Repr()
    {
      match this
      case MemIn(m) => m.Valid()
      case RecIn(r) => r.Valid()
    }

    /** What can still be got: of the buffer, or of the current record. */
    ghost function Left(): (s: seq<byte>)
      requires Valid()
      reads Repr()
    {
      match this
      case MemIn(m) => m.Left()
      case RecIn(r) => r.Rest().payload
    }

    /** What follows: nothing, or the records after the current one. */
    ghost function Beyond(): (s: Rest)
      requires Valid()
      reads Repr()
    {
      match this
      case MemIn(_) => Broken([])
      case RecIn(r) => r.Rest().(payload := [])
    }

    method GetLong() returns (ok: bool, v: int32)
      requires Valid()
      modifies Repr()
      ensures Valid()
      ensures ok <==> 4 <= |old(Left())|
      ensures ok ==> v == Signed(FromNet(old(Left())[..4]))
      ensures ok ==> Left() == old(Left())[4..] && Beyond() == old(Beyond())
    {
      match this
      case MemIn(m) => ok, v := m.GetLong();
      case RecIn(r) =>
        hide Parse, RecordReader.Reader.Ahead, RecordReader.Reader.Placed;
        ok, v := r.GetLong();
    }

    method GetBytes(len: nat) returns (ok: bool, data: seq<byte>)
      requires Valid()
      modifies Repr()
      ensures Valid()
      ensures ok <==> len <= |old(Left())|
      ensures ok ==> data == old(Left())[..len]
      ensures ok ==> Left() == old(Left())[len..] && Beyond() == old(Beyond())
    {
      match this
      case MemIn(m) => ok, data := m.GetBytes(len);
      case RecIn(r) =>
        hide Parse, RecordReader.Reader.Ahead, RecordReader.Reader.Placed;
        ok, data := r.GetBytes(len);
    }
  }
}
