/**
 * Record marking as section 11 of RFC 5531 defines it, on values: what a list of
 * fragments looks like on the wire, which records it carries, and what a byte
 * stream contains when it is read back.  Nothing here knows about buffers.
 */
module Fragments {
  import opened Bytes

  const LAST_FRAG := 0x8000_0000

  datatype Fragment = Fragment(data: seq<byte>, last: bool)

  /** Fragment lengths have 31 bits. */
  ghost predicate Sized(fs: seq<Fragment>) {
    forall i :: 0 <= i < |fs| ==> |fs[i].data| < LAST_FRAG
  }

  function Header(len: nat, last: bool): (w: word)
    requires len < LAST_FRAG
  {
    if last then len + LAST_FRAG else len
  }

  function FragmentBytes(f: Fragment): (s: seq<byte>)
    requires |f.data| < LAST_FRAG
  {
    ToNet(Header(|f.data|, f.last)) + f.data
  }

  ghost function Wire(fs: seq<Fragment>): (s: seq<byte>)
    requires Sized(fs)
  {
    if fs == [] then [] else FragmentBytes(fs[0]) + Wire(fs[1..])
  }

  /** The records completed by a list of fragments, and the bytes of the one still open. */
  datatype Assembly = Assembly(records: seq<seq<byte>>, open: seq<byte>)

  function Assemble(open: seq<byte>, fs: seq<Fragment>): (a: Assembly)
    decreases fs
  {
    if fs == [] then Assembly([], open)
    else if fs[0].last then
      var a := Assemble([], fs[1..]);
      Assembly([open + fs[0].data] + a.records, a.open)
    else Assemble(open + fs[0].data, fs[1..])
  }

  /** The one header a reader rejects: a fragment that is empty and not the last. */
  predicate Stranded(f: Fragment) {
    !f.last && f.data == []
  }

  ghost predicate Readable(fs: seq<Fragment>) {
    forall i :: 0 <= i < |fs| ==> !Stranded(fs[i])
  }

  lemma ReadableAppend(fs: seq<Fragment>, f: Fragment)
    ensures Readable(fs + [f]) <==> Readable(fs) && !Stranded(f)
  {
    assert (fs + [f])[|fs|] == f;
    assert forall i :: 0 <= i < |fs| ==> (fs + [f])[i] == fs[i];
  }

  function ReadablePrefix(fs: seq<Fragment>): (p: seq<Fragment>)
    ensures p <= fs && Readable(p)
    ensures Readable(fs) ==> p == fs
    ensures |p| < |fs| ==> Stranded(fs[|p|])
  {
    if fs == [] || Stranded(fs[0]) then [] else [fs[0]] + ReadablePrefix(fs[1..])
  }

  /**
   * What a stream holds for a reader that still has `need` bytes of a fragment to
   * consume: either the rest of the record and the bytes after it, or the bytes
   * that can still be had before the stream ends or shows a zero header.
   */
  datatype Rest = Complete(payload: seq<byte>, after: seq<byte>) | Broken(payload: seq<byte>)

  function Prepend(d: seq<byte>, r: Rest): Rest {
    r.(payload := d + r.payload)
  }

  function Parse(need: nat, last: bool, s: seq<byte>): (r: Rest)
    ensures r.Complete? ==> |r.payload| + |r.after| <= |s|
    ensures r.Complete? && !last ==> |r.after| < |s|
    decreases |s|, 1
  {
    if |s| < need then Broken(s) else Prepend(s[..need], ParseOn(last, s[need..]))
  }

  /** What follows a fragment that has been consumed. */
  function ParseOn(last: bool, s: seq<byte>): (r: Rest)
    ensures r.Complete? ==> |r.payload| + |r.after| <= |s|
    ensures r.Complete? && !last ==> |r.after| < |s|
    decreases |s|, 0
  {
    if last then Complete([], s)
    else if |s| < 4 || FromNet(s[..4]) == 0 then Broken([])
    else
      var h := FromNet(s[..4]);
      Parse(h % LAST_FRAG, h >= LAST_FRAG, s[4..])
  }

  /** Every complete record of a byte stream, in order. */
  function RecordsIn(s: seq<byte>): (rs: seq<seq<byte>>)
    decreases |s|
  {
    match Parse(0, false, s)
    case Complete(p, after) => [p] + RecordsIn(after)
    case Broken(_) => []
  }

  lemma RecordsStep(s: seq<byte>)
    ensures var r := Parse(0, false, s);
            RecordsIn(s) == if r.Complete? then [r.payload] + RecordsIn(r.after) else []
  {
  }

  /**
   * What a fragment looks like: four bytes of header, then the data.  The top bit of the
   * first byte says whether it is the last, the other 31 bits are the length.
   */
  lemma FragmentLayout(f: Fragment)
    requires |f.data| < 0x8000_0000
    ensures var b := FragmentBytes(f);
            && |b| == 4 + |f.data| && b[4..] == f.data
            && BigEndian(b[..4]) % 0x8000_0000 == |f.data|
            && (b[0] >= 0x80 <==> f.last)
  {
    var b, w := FragmentBytes(f), Header(|f.data|, f.last);
    assert b[..4] == ToNet(w);
    NetIsBigEndian(w, ToNet(w));
  }

  lemma {:induction false} WireAppend(fs: seq<Fragment>, f: Fragment)
    requires Sized(fs) && |f.data| < LAST_FRAG
    ensures Sized(fs + [f]) && Wire(fs + [f]) == Wire(fs) + FragmentBytes(f)
  {
    hide FragmentBytes;
    if fs == [] {
      assert fs + [f] == [f] && [f][1..] == [];
    } else {
      WireAppend(fs[1..], f);
      assert (fs + [f])[1..] == fs[1..] + [f];
      assert FragmentBytes(fs[0]) + (Wire(fs[1..]) + FragmentBytes(f)) ==
             (FragmentBytes(fs[0]) + Wire(fs[1..])) + FragmentBytes(f);
    }
  }

  lemma {:induction false} AssembleAppend(open: seq<byte>, fs: seq<Fragment>, f: Fragment)
    ensures var a := Assemble(open, fs);
            Assemble(open, fs + [f]) ==
            if f.last then Assembly(a.records + [a.open + f.data], [])
            else Assembly(a.records, a.open + f.data)
    decreases fs
  {
    if fs == [] {
      assert fs + [f] == [f] && [f][1..] == [];
    } else {
      assert (fs + [f])[1..] == fs[1..] + [f];
      AssembleAppend(if fs[0].last then [] else open + fs[0].data, fs[1..], f);
    }
  }

  /** Consuming the first n bytes of a fragment leaves exactly the rest of the record. */
  lemma {:induction false} ParseTake(need: nat, last: bool, s: seq<byte>, n: nat)
    requires n <= need && n <= |s|
    ensures Parse(need, last, s) == Prepend(s[..n], Parse(need - n, last, s[n..]))
  {
    hide ParseOn;
    if need <= |s| {
      var m := need - n;
      assert s[need..] == s[n..][m..];
      var p := ParseOn(last, s[need..]).payload;
      assert s[..need] + p == s[..n] + (s[n..][..m] + p);
    } else {
      assert s == s[..n] + s[n..];
    }
  }

  lemma ParseStart(last: bool, s: seq<byte>)
    ensures Parse(0, last, s) == ParseOn(last, s)
  {
    hide ParseOn;
    assert s[0..] == s && [] + ParseOn(last, s).payload == ParseOn(last, s).payload;
  }

  /** Reading a header on the way does not change what the record still holds. */
  lemma ParseHeader(s: seq<byte>)
    requires |s| >= 4 && FromNet(s[..4]) != 0
    ensures var h := FromNet(s[..4]);
            Parse(0, false, s) == Parse(h % LAST_FRAG, h >= LAST_FRAG, s[4..])
  {
    ParseStart(false, s);
  }

  lemma {:induction false} ParseWhole(d: seq<byte>, last: bool, tail: seq<byte>)
    ensures Parse(|d|, last, d + tail) ==
            if last then Complete(d, tail) else Prepend(d, Parse(0, false, tail))
  {
    var s := d + tail;
    assert s[..|d|] == d && s[|d|..] == tail;
    ParseStart(last, tail);
    assert d + [] == d;
  }

  /** A fragment header followed by anything is decoded into its two fields. */
  lemma HeaderReadsBack(len: nat, last: bool, tail: seq<byte>)
    requires len < LAST_FRAG
    ensures var s := ToNet(Header(len, last)) + tail;
            s[4..] == tail &&
            var h := FromNet(s[..4]);
            h % LAST_FRAG == len && (h >= LAST_FRAG <==> last) && (h == 0 <==> len == 0 && !last)
  {
    FromNetOfToNet(Header(len, last));
    assert (ToNet(Header(len, last)) + tail)[..4] == ToNet(Header(len, last));
  }

  /** The fragment at the head of a stream is read as itself. */
  lemma {:induction false} ParseFragment(f: Fragment, tail: seq<byte>)
    requires |f.data| < LAST_FRAG && !Stranded(f)
    ensures Parse(0, false, FragmentBytes(f) + tail) ==
            if f.last then Complete(f.data, tail) else Prepend(f.data, Parse(0, false, tail))
  {
    var n := Header(|f.data|, f.last);
    assert FragmentBytes(f) + tail == ToNet(n) + (f.data + tail);
    HeaderReadsBack(|f.data|, f.last, f.data + tail);
    ParseHeader(ToNet(n) + (f.data + tail));
    ParseWhole(f.data, f.last, tail);
  }

  /** Of a stream that ends inside a fragment a reader still gets the bytes that came. */
  lemma ParseCutShort(f: Fragment, k: nat)
    requires k < |f.data| < LAST_FRAG
    ensures Parse(0, false, FragmentBytes(f)[..4 + k]) == Broken(f.data[..k])
  {
    var w, d := Header(|f.data|, f.last), f.data[..k];
    assert FragmentBytes(f)[..4 + k] == ToNet(w) + d;
    HeaderReadsBack(|f.data|, f.last, d);
    ParseHeader(ToNet(w) + d);
  }

  /** A fragment that is empty and not last stops every reader. */
  lemma {:induction false} ParseStranded(f: Fragment, tail: seq<byte>)
    requires |f.data| < LAST_FRAG && Stranded(f)
    ensures Parse(0, false, FragmentBytes(f) + tail) == Broken([])
  {
    HeaderReadsBack(0, false, tail);
    assert FragmentBytes(f) == ToNet(0);
    ParseStart(false, ToNet(0) + tail);
  }

  /** The records of a stream whose first one continues `open`. */
  function RecordsFrom(open: seq<byte>, s: seq<byte>): seq<seq<byte>> {
    match Parse(0, false, s)
    case Complete(p, after) => [open + p] + RecordsIn(after)
    case Broken(_) => []
  }

  lemma {:induction false} RecordsFromNothing(s: seq<byte>)
    ensures RecordsFrom([], s) == RecordsIn(s)
  {
    match Parse(0, false, s)
    case Complete(p, _) => assert [] + p == p;
    case Broken(_) =>
  }

  /**
   * Reading a wire back yields exactly the records its fragments assemble to, up to
   * the first stranded fragment; with none, it yields all of them.
   */
  lemma {:induction false} WireReadsBack(open: seq<byte>, fs: seq<Fragment>)
    requires Sized(fs)
    ensures RecordsFrom(open, Wire(fs)) == Assemble(open, ReadablePrefix(fs)).records
    decreases |fs|
  {
    if fs == [] {
    } else if Stranded(fs[0]) {
      ParseStranded(fs[0], Wire(fs[1..]));
    } else {
      var f, tail := fs[0], Wire(fs[1..]);
      ParseFragment(f, tail);
      var p := ReadablePrefix(fs[1..]);
      assert ReadablePrefix(fs) == [f] + p && ([f] + p)[1..] == p;
      if f.last {
        WireReadsBack([], fs[1..]);
        RecordsFromNothing(tail);
      } else {
        WireReadsBack(open + f.data, fs[1..]);
        match Parse(0, false, tail)
        case Complete(q, _) => assert open + (f.data + q) == (open + f.data) + q;
        case Broken(_) =>
      }
    }
  }

  /** Assembling fewer fragments completes fewer of the same records. */
  lemma {:induction false} AssemblePrefix(open: seq<byte>, fs: seq<Fragment>, gs: seq<Fragment>)
    requires fs <= gs
    ensures Assemble(open, fs).records <= Assemble(open, gs).records
    decreases fs
  {
    if fs != [] {
      assert fs[0] == gs[0];
      AssemblePrefix(if fs[0].last then [] else open + fs[0].data, fs[1..], gs[1..]);
    }
  }

  /** Bytes that arrive later do not change a record that is already complete. */
  lemma {:induction false} ParseMore(need: nat, last: bool, s: seq<byte>, t: seq<byte>)
    requires Parse(need, last, s).Complete?
    ensures var r := Parse(need, last, s);
            Parse(need, last, s + t) == Complete(r.payload, r.after + t)
    decreases |s|
  {
    var u := s[need..];
    assert (s + t)[..need] == s[..need] && (s + t)[need..] == u + t;
    if !last {
      assert (u + t)[..4] == u[..4] && (u + t)[4..] == u[4..] + t;
      var h := FromNet(u[..4]);
      ParseMore(h % LAST_FRAG, h >= LAST_FRAG, u[4..], t);
    }
  }

  lemma {:induction false} RecordsMore(s: seq<byte>, t: seq<byte>)
    ensures RecordsIn(s) <= RecordsIn(s + t)
    decreases |s|
  {
    hide Parse;
    RecordsStep(s);
    if Parse(0, false, s).Complete? {
      ParseMore(0, false, s, t);
      RecordsStep(s + t);
      RecordsMore(Parse(0, false, s).after, t);
    }
  }

  /** A receiver that has part of a wire sees only records the fragments complete. */
  lemma SeenRecords(fs: seq<Fragment>, sent: seq<byte>)
    requires Sized(fs) && sent <= Wire(fs)
    ensures RecordsIn(sent) <= Assemble([], fs).records
  {
    hide RecordsIn, Assemble, RecordsFrom, Wire;
    assert sent + Wire(fs)[|sent|..] == Wire(fs);
    RecordsMore(sent, Wire(fs)[|sent|..]);
    RecordsFromNothing(Wire(fs));
    WireReadsBack([], fs);
    AssemblePrefix([], ReadablePrefix(fs), fs);
  }

  function Lasts(fs: seq<Fragment>): (n: nat) {
    if fs == [] then 0 else (if fs[0].last then 1 else 0) + Lasts(fs[1..])
  }

  lemma {:induction false} OneRecordForEachLast(open: seq<byte>, fs: seq<Fragment>)
    ensures |Assemble(open, fs).records| == Lasts(fs)
    decreases fs
  {
    if fs != [] {
      OneRecordForEachLast(if fs[0].last then [] else open + fs[0].data, fs[1..]);
    }
  }

  lemma {:induction false} FewerLasts(p: seq<Fragment>, fs: seq<Fragment>)
    requires p < fs && fs[|fs| - 1].last
    ensures Lasts(p) < Lasts(fs)
  {
    if p == [] {
      if |fs| > 1 {
        FewerLasts([], fs[1..]);
      }
    } else {
      FewerLasts(p[1..], fs[1..]);
    }
  }

  /** A wire that ends with a whole record reads back completely exactly when nothing is stranded. */
  lemma ReadsBackIff(fs: seq<Fragment>)
    requires Sized(fs) && (fs == [] || fs[|fs| - 1].last)
    ensures RecordsIn(Wire(fs)) == Assemble([], fs).records <==> Readable(fs)
  {
    hide RecordsIn, RecordsFrom, Assemble, Wire;
    var p := ReadablePrefix(fs);
    WireReadsBack([], fs);
    RecordsFromNothing(Wire(fs));
    if !Readable(fs) {
      OneRecordForEachLast([], p);
      OneRecordForEachLast([], fs);
      FewerLasts(p, fs);
    }
  }
}
