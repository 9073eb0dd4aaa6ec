/** The incoming half of a record stream, and the connection it reads from. */
module RecordReader {
  import opened Bytes
  import opened Fragments
  import RecordWriter

  /**
   * The receiving side of a connection, as readtcp sees it.  `pending` is everything
   * that will ever arrive: a failed read is fatal for the connection, so the stream
   * ends where reading fails.
   */
  class Feed {
    var pending: seq<byte>

    constructor (stream: seq<byte>)
      ensures pending == stream
    {
      pending := stream;
    }

    /** Delivers any number of bytes from 1 to len, or -1 when there are no more. */
    method Read(buf: array<byte>, at: nat, len: nat) returns (n: int)
      requires 0 < len && at + len <= buf.Length
      modifies this, buf
      ensures n == -1 <==> old(pending) == []
      ensures n == -1 ==> pending == [] && buf[..] == old(buf[..])
      ensures n != -1 ==> 1 <= n <= len && n <= |old(pending)|
      ensures n != -1 ==> pending == old(pending)[n..] && buf[at..at + n] == old(pending)[..n]
    {
      if pending == [] {
        return -1;
      }
      n :| 1 <= n <= len && n <= |pending|;
      RecordWriter.CopyIn(buf, at, pending[..n]);
      pending := pending[n..];
    }
  }

  /** Where a reader is: what is left of the fragment, and the stream from there on. */
  datatype Place = Place(need: nat, last: bool, ahead: seq<byte>)

  /** Where a reader is after consuming len bytes of the record, if it has them. */
  function Onward(p: Place, len: nat): (r: Option<Place>)
    decreases |p.ahead|, len
  {
    if len == 0 then Some(p)
    else if p.need == 0 then
      if p.last || |p.ahead| < 4 || FromNet(p.ahead[..4]) == 0 then None
      else Onward(AfterHeader(p.ahead), len)
    else
      var n := if len < p.need then len else p.need;
      if |p.ahead| < n then None else Onward(Place(p.need - n, p.last, p.ahead[n..]), len - n)
  }

  lemma OnwardHeader(s: seq<byte>, len: nat)
    requires |s| >= 4 && FromNet(s[..4]) != 0 && len > 0
    ensures Onward(Place(0, false, s), len) == Onward(AfterHeader(s), len)
  {
  }

  lemma OnwardTake(p: Place, n: nat, len: nat)
    requires p.need > 0 && len > 0 && n == (if len < p.need then len else p.need) && n <= |p.ahead|
    ensures Onward(p, len) == Onward(Place(p.need - n, p.last, p.ahead[n..]), len - n)
  {
  }

  lemma OnwardNowhere(p: Place)
    ensures Onward(p, 0) == Some(p)
  {
  }

  function AfterHeader(s: seq<byte>): (p: Place)
    requires |s| >= 4
    ensures |p.ahead| < |s|
  {
    var h := FromNet(s[..4]);
    Place(h % LAST_FRAG, h >= LAST_FRAG, s[4..])
  }

  class Reader {
    const buf: array<byte>    // in_base, of size in_size
    const feed: Feed
    var inFinger: nat         // next byte to be had
    var inBoundary: nat       // end of the bytes received
    var fbtbc: nat            // fragment bytes to be consumed
    var lastFrag: bool
    ghost const stream: seq<byte>    // everything the connection delivers

    ghost predicate Geometry()
      reads `inFinger, `inBoundary
    {
      100 <= buf.Length && buf.Length % 4 == 0 && inFinger <= inBoundary <= buf.Length
    }

    /** The stream bytes not yet consumed: those in the buffer, then those still to arrive. */
    ghost function Ahead(): (s: seq<byte>)
      requires Geometry()
      reads `inFinger, `inBoundary, buf, feed
    {
      buf[inFinger..inBoundary] + feed.pending
    }

    /**
     * The reader is at some position of the stream, and its place in the buffer is
     * congruent to that position, so words of the stream are words of the buffer.
     */
    ghost predicate Placed()
      requires Geometry()
      reads `inFinger, `inBoundary, buf, feed
    {
      && |Ahead()| <= |stream|
      && Ahead() == stream[|stream| - |Ahead()|..]
      && (|stream| - |Ahead()|) % 4 == inFinger % 4
    }

    ghost predicate Valid()
      reads `inFinger, `inBoundary, buf, feed
    {
      Geometry() && Placed()
    }

    /** What the current record still holds. */
    ghost function Rest(): (r: Rest)
      requires Geometry()
      reads this, buf, feed
    {
      Parse(fbtbc, lastFrag, Ahead())
    }

    ghost function Here(): Place
      requires Geometry()
      reads this, buf, feed
    {
      Place(fbtbc, lastFrag, Ahead())
    }

    /** The record is consumed and nothing after it. */
    predicate AtEnd()
      reads this
    {
      fbtbc == 0 && lastFrag
    }

    constructor (recvsize: nat, feed: Feed)
      ensures Valid() && Ahead() == stream == feed.pending
      ensures fbtbc == 0 && lastFrag
      ensures this.feed == feed && fresh(buf) && buf.Length == RecordWriter.FixBufSize(recvsize)
    {
      var size := RecordWriter.FixBufSize(recvsize);
      buf := new byte[size];
      this.feed := feed;
      inFinger, inBoundary := size, size;
      fbtbc, lastFrag := 0, true;
      stream := feed.pending;
    }

    /** Refills an empty buffer, keeping the phase of the stream. */
    method FillInputBuf() returns (ok: bool)
      requires Valid() && inFinger == inBoundary
      modifies this`inFinger, this`inBoundary, buf, feed
      ensures Valid() && Ahead() == old(Ahead())
      ensures ok <==> old(Ahead()) != []
      ensures ok ==> inFinger < inBoundary && |feed.pending| < |old(feed.pending)|
    {
      var i := inBoundary % 4;
      var len := feed.Read(buf, i, buf.Length - i);
      if len == -1 {
        return false;
      }
      inFinger, inBoundary := i, i + len;
      assert Ahead() == old(feed.pending);
      return true;
    }

    /** Takes bytes that are in the buffer. */
    method Advance(n: nat) returns (data: seq<byte>)
      requires Valid() && inFinger + n <= inBoundary
      modifies this`inFinger
      ensures Valid() && inFinger == old(inFinger) + n
      ensures n <= |old(Ahead())| && data == old(buf[inFinger..inFinger + n])
      ensures data == old(Ahead())[..n] && Ahead() == old(Ahead())[n..]
    {
      TakeBuffered(buf[..], inFinger, inBoundary, feed.pending, n);
      SuffixOfSuffix(stream, Ahead(), n);
      RecordWriter.SamePhase(|stream| - |Ahead()|, inFinger, n);
      data := buf[inFinger..inFinger + n];
      inFinger := inFinger + n;
    }

    /** Gets the next len bytes of the stream; knows nothing about records. */
    method GetInputBytes(len: nat) returns (ok: bool, data: seq<byte>)
      requires Valid()
      modifies this`inFinger, this`inBoundary, buf, feed
      ensures Valid()
      ensures ok <==> len <= |old(Ahead())|
      ensures ok ==> data == old(Ahead())[..len] && Ahead() == old(Ahead())[len..]
    {
      hide Ahead, Placed;
      data := [];
      while |data| < len
        invariant Valid() && |data| <= len && |data| <= |old(Ahead())|
        invariant data == old(Ahead())[..|data|] && Ahead() == old(Ahead())[|data|..]
        decreases len - |data|, |feed.pending|
      {
        var n := inBoundary - inFinger;
        if n == 0 {
          var filled := FillInputBuf();
          if !filled {
            return false, data;
          }
          continue;
        }
        n := if len - |data| < n then len - |data| else n;
        var chunk := Advance(n);
        Resume([], old(Ahead()), |data|, n);
        data := data + chunk;
      }
      return true, data;
    }

    /** Skips the next cnt bytes of the stream; knows nothing about records. */
    method SkipInputBytes(cnt: nat) returns (ok: bool)
      requires Valid()
      modifies this`inFinger, this`inBoundary, buf, feed
      ensures Valid()
      ensures ok <==> cnt <= |old(Ahead())|
      ensures ok ==> Ahead() == old(Ahead())[cnt..]
    {
      hide Ahead, Placed;
      var left := cnt;
      while left > 0
        invariant Valid() && 0 <= left <= cnt && cnt - left <= |old(Ahead())|
        invariant Ahead() == old(Ahead())[cnt - left..]
        decreases left, |feed.pending|
      {
        var n := inBoundary - inFinger;
        if n == 0 {
          var filled := FillInputBuf();
          if !filled {
            return false;
          }
          continue;
        }
        n := if left < n then left else n;
        var _ := Advance(n);
        Resume([], old(Ahead()), cnt - left, n);
        left := left - n;
      }
      return true;
    }

    /** Takes the next four bytes of the stream as a fragment header. */
    method SetInputFragment() returns (ok: bool)
      requires Valid() && fbtbc == 0 && !lastFrag
      modifies this`inFinger, this`inBoundary, this`fbtbc, this`lastFrag, buf, feed
      ensures Valid()
      ensures ok ==> Rest() == old(Rest()) && |Ahead()| + 4 == |old(Ahead())|
      ensures ok ==> FromNet(old(Ahead())[..4]) != 0 && Here() == AfterHeader(old(Ahead()))
      ensures !ok ==> old(Rest()) == Broken([]) && !lastFrag
    {
      ParseStart(false, Ahead());
      var got, bytes := GetInputBytes(4);
      if !got {
        return false;
      }
      var header := FromNet(bytes);
      lastFrag := header >= LAST_FRAG;
      if header == 0 {
        return false;
      }
      fbtbc := header % LAST_FRAG;
      ParseHeader(old(Ahead()));
      return true;
    }

    /** Gets bytes that the current fragment announces. */
    method GetFragmentBytes(n: nat) returns (ok: bool, data: seq<byte>)
      requires Valid() && n <= fbtbc
      modifies this`inFinger, this`inBoundary, this`fbtbc, buf, feed
      ensures Valid()
      ensures ok ==> |data| == n && old(Rest()) == Prepend(data, Rest())
      ensures ok ==> n <= |old(Ahead())| && Here() == Place(old(fbtbc) - n, lastFrag, old(Ahead())[n..])
      ensures !ok ==> old(Rest()).Broken? && |old(Rest()).payload| < n && fbtbc == old(fbtbc)
    {
      hide Parse, Ahead, Placed;
      ghost var s := Ahead();
      ok, data := GetInputBytes(n);
      if !ok {
        ParseShort(fbtbc, lastFrag, s);
      } else {
        ParseTake(fbtbc, lastFrag, s, n);
        fbtbc := fbtbc - n;
      }
    }

    /** Skips what is left of the current fragment. */
    method SkipFragment() returns (ok: bool)
      requires Valid()
      modifies this`inFinger, this`inBoundary, this`fbtbc, buf, feed
      ensures Valid()
      ensures ok ==> fbtbc == 0 && |Ahead()| == |old(Ahead())| - old(fbtbc)
      ensures ok ==> old(Rest()) == Prepend(old(Ahead())[..old(fbtbc)], Rest())
      ensures !ok ==> old(Rest()).Broken?
    {
      hide Parse, Ahead, Placed;
      ghost var s := Ahead();
      ok := SkipInputBytes(fbtbc);
      if !ok {
        ParseShort(fbtbc, lastFrag, s);
      } else {
        ParseTake(fbtbc, lastFrag, s, fbtbc);
        fbtbc := 0;
      }
    }

    /**
     * Gets len bytes of the current record, across buffers and fragments.  It succeeds
     * exactly when the record still has them, and what follows the record stays put.
     */
    method GetBytes(len: nat) returns (ok: bool, data: seq<byte>)
      requires Valid()
      modifies this, buf, feed
      ensures Valid()
      ensures ok <==> len <= |old(Rest()).payload|
      ensures ok ==> data == old(Rest()).payload[..len]
      ensures ok ==> Rest() == old(Rest()).(payload := old(Rest()).payload[len..])
      ensures ok ==> Onward(old(Here()), len) == Some(Here())
      ensures !ok ==> (AtEnd() <==> old(Rest()).Complete?)
      ensures !ok && AtEnd() ==> Ahead() == old(Rest()).after
    {
      hide Parse, Ahead, Placed, Onward, AfterHeader;
      data := [];
      while |data| < len
        invariant Valid() && |data| <= len
        invariant old(Rest()) == Prepend(data, Rest())
        invariant Onward(old(Here()), len) == Onward(Here(), len - |data|)
        decreases len - |data|, |Ahead()|
      {
        if fbtbc == 0 {
          if lastFrag {
            ParseEnd(Ahead());
            return false, data;
          }
          ghost var s := Ahead();
          var started := SetInputFragment();
          if !started {
            return false, data;
          }
          OnwardHeader(s, len - |data|);
          continue;
        }
        var n := if len - |data| < fbtbc then len - |data| else fbtbc;
        ghost var p := Here();
        var got, bytes := GetFragmentBytes(n);
        if !got {
          return false, data;
        }
        OnwardTake(p, n, len - |data|);
        PrependTwice(data, bytes, Rest());
        data := data + bytes;
      }
      OnwardNowhere(Here());
      return true, data;
    }

    /** Gets a word of the current record, in place when it lies whole in the buffer. */
    method GetLong() returns (ok: bool, v: int32)
      requires Valid()
      modifies this, buf, feed
      ensures Valid()
      ensures ok <==> 4 <= |old(Rest()).payload|
      ensures ok ==> v == Signed(FromNet(old(Rest()).payload[..4]))
      ensures ok ==> Rest() == old(Rest()).(payload := old(Rest()).payload[4..])
      ensures ok ==> Onward(old(Here()), 4) == Some(Here())
    {
      hide Parse;
      if fbtbc >= 4 && inBoundary - inFinger >= 4 {
        ParseTake(fbtbc, lastFrag, Ahead(), 4);
        var w := Advance(4);
        fbtbc := fbtbc - 4;
        return true, Signed(FromNet(w));
      }
      var got, bytes := GetBytes(4);
      if !got {
        return false, 0;
      }
      return true, Signed(FromNet(bytes));
    }

    /** Discards what is left of the current record, up to its last fragment. */
    method ToEndOfRecord() returns (ok: bool)
      requires Valid()
      modifies this, buf, feed
      ensures Valid()
      ensures ok <==> old(Rest()).Complete?
      ensures ok ==> AtEnd() && Ahead() == old(Rest()).after
    {
      hide Parse, Ahead, Placed;
      while fbtbc > 0 || !lastFrag
        invariant Valid()
        invariant Rest().Complete? <==> old(Rest()).Complete?
        invariant Rest().Complete? ==> Rest().after == old(Rest()).after
        decreases |Ahead()|, lastFrag
      {
        var went := SkipFragment();
        if !went {
          return false;
        }
        if !lastFrag {
          var started := SetInputFragment();
          if !started {
            return false;
          }
        }
      }
      ParseEnd(Ahead());
      return true;
    }

    /** Moves to the start of the next record. */
    method SkipRecord() returns (ok: bool)
      requires Valid()
      modifies this, buf, feed
      ensures Valid()
      ensures ok <==> old(Rest()).Complete?
      ensures ok ==> fbtbc == 0 && !lastFrag && Ahead() == old(Rest()).after
    {
      ok := ToEndOfRecord();
      if ok {
        lastFrag := false;
      }
    }

    /**
     * Lookahead: false only at the end of the current record with more input in the
     * buffer.  Whatever the answer, a complete record is consumed and nothing after it.
     */
    method Eof() returns (eof: bool)
      requires Valid()
      modifies this, buf, feed
      ensures Valid()
      ensures old(Rest()).Complete? ==> AtEnd() && Ahead() == old(Rest()).after
      ensures !eof ==> old(Rest()).Complete? && inFinger < inBoundary
      ensures eof && old(Rest()).Complete? ==> inFinger == inBoundary
    {
      var ok := ToEndOfRecord();
      return !ok || inFinger == inBoundary;
    }

    /** Looking ahead first does not change where skipping to the next record ends up. */
    method EofThenSkip() returns (eof: bool, ok: bool)
      requires Valid()
      modifies this, buf, feed
      ensures Valid()
      ensures old(Rest()).Complete? ==> ok
      ensures old(Rest()).Complete? ==> fbtbc == 0 && !lastFrag && Ahead() == old(Rest()).after
    {
      eof := Eof();
      ParseEnd(Ahead());
      ok := SkipRecord();
    }
  }

  lemma TakeBuffered(b: seq<byte>, from: nat, to: nat, rest: seq<byte>, n: nat)
    requires from + n <= to <= |b|
    ensures (b[from..to] + rest)[..n] == b[from..from + n]
    ensures (b[from..to] + rest)[n..] == b[from + n..to] + rest
  {
  }

  lemma SuffixOfSuffix(whole: seq<byte>, s: seq<byte>, n: nat)
    requires n <= |s| <= |whole| && s == whole[|whole| - |s|..]
    ensures s[n..] == whole[|whole| - |s| + n..]
  {
  }

  lemma ParseEnd(s: seq<byte>)
    ensures Parse(0, true, s) == Complete([], s)
  {
    ParseStart(true, s);
  }

  lemma PrependTwice(a: seq<byte>, b: seq<byte>, r: Rest)
    ensures Prepend(a, Prepend(b, r)) == Prepend(a + b, r)
  {
    assert a + (b + r.payload) == (a + b) + r.payload;
  }

  lemma ParseShort(need: nat, last: bool, s: seq<byte>)
    requires |s| < need
    ensures Parse(need, last, s) == Broken(s)
  {
  }
}
