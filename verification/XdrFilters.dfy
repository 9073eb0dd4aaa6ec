/** The filters themselves, run over any stream, against the encoding and the decoding. */
module XdrFilters {
  import opened Bytes
  import opened XdrData
  import opened XdrCodec
  import XdrLayout
  import opened XdrStreams
  import opened Fragments

  lemma WordOfSigned(w: word)
    ensures Word(Signed(w)) == w && (Signed(w) == 0 <==> w == 0)
  {
  }

  lemma JoinNothing(a: Option<seq<byte>>)
    ensures Join(Some([]), a) == a && Join(a, Some([])) == a
  {
    if a.Some? {
      assert [] + a.value == a.value && a.value + [] == a.value;
    }
  }

  lemma JoinJoin(a: Option<seq<byte>>, b: Option<seq<byte>>, c: Option<seq<byte>>)
    ensures Join(Join(a, b), c) == Join(a, Join(b, c))
  {
    if a.Some? && b.Some? && c.Some? {
      assert (a.value + b.value) + c.value == a.value + (b.value + c.value);
    }
  }

  // -- encoding ---------------------------------------------------------------

  /**
   * The contract of a filter that should put `bytes` after `before`: it succeeds only
   * by putting exactly those, and when there is something to put it fails only because
   * the stream refuses to hold that much.
   */
  ghost predicate Put(sink: Sink, before: seq<byte>, bytes: Option<seq<byte>>, ok: bool)
    reads sink.Repr()
  {
    if ok then bytes.Some? && sink.Valid() && sink.Written() == before + bytes.value
    else bytes.Some? ==> sink.Refuses(|before| + |bytes.value|)
  }

  lemma PutNothing(sink: Sink, before: seq<byte>)
    ensures Put(sink, before, None, false)
  {
  }

  lemma PutEmpty(sink: Sink)
    requires sink.Valid()
    ensures Put(sink, sink.Written(), Some([]), true)
  {
  }

  /** Two filters in a row: when the first fails, and when it has succeeded. */
  lemma FailedFirst(sink: Sink, before: seq<byte>, a: seq<byte>, b: Option<seq<byte>>)
    requires Put(sink, before, Some(a), false)
    ensures Put(sink, before, Join(Some(a), b), false)
  {
  }

  lemma PutSecond(sink: Sink, before: seq<byte>, a: seq<byte>, b: Option<seq<byte>>, ok: bool)
    requires Put(sink, before + a, b, ok)
    ensures Put(sink, before, Join(Some(a), b), ok)
  {
    if b.Some? {
      assert (before + a) + b.value == before + (a + b.value);
    }
  }

  /** A filter that fails part of the way has failed for the whole. */
  lemma FailedPart(sink: Sink, before: seq<byte>, done: seq<byte>,
                   e: Option<seq<byte>>, rest: Option<seq<byte>>)
    requires Put(sink, before + done, e, false)
    ensures Put(sink, before, Join(Some(done), Join(e, rest)), false)
  {
  }

  lemma PutPart(before: seq<byte>, done: seq<byte>, e: seq<byte>, rest: Option<seq<byte>>)
    requires |before + done| % 4 == 0 && |e| % 4 == 0
    ensures (before + done) + e == before + (done + e)
    ensures |(before + done) + e| % 4 == 0
    ensures Join(Some(done), Join(Some(e), rest)) == Join(Some(done + e), rest)
  {
    JoinJoin(Some(done), Some(e), rest);
    assert |(before + done) + e| == |before + done| + |e|;
  }

  ghost predicate Ready(sink: Sink)
    reads sink.Repr()
  {
    sink.Valid() && |sink.Written()| % 4 == 0
  }

  method EncodeWord(sink: Sink, i: int) returns (ok: bool)
    requires Ready(sink)
    modifies sink.Repr()
    ensures sink.Kept() == old(sink.Kept())
    ensures Put(sink, old(sink.Written()), Some(ToNet(Word(i))), ok)
    ensures ok ==> Ready(sink)
  {
    hide ToNet, Sink.Refuses, Sink.Written, Sink.Valid, Sink.Kept;
    ghost var n := |sink.Written()|;
    assert (n + 4) % 4 == n % 4;
    ok := sink.PutLong(i);
  }

  method EncodeBytes(sink: Sink, bs: seq<byte>) returns (ok: bool)
    requires sink.Valid()
    modifies sink.Repr()
    ensures sink.Kept() == old(sink.Kept())
    ensures Put(sink, old(sink.Written()), Some(bs), ok)
    ensures ok ==> sink.Valid() && sink.Written() == old(sink.Written()) + bs
  {
    hide Sink.Refuses, Sink.Written, Sink.Valid, Sink.Kept;
    ok := sink.PutBytes(bs);
  }

  lemma PaddedParts(bs: seq<byte>)
    ensures Join(Some(bs), Some(Zeros(Pad(|bs|)))) == Some(Padded(bs))
    ensures bs == [] ==> Padded(bs) == []
    ensures Pad(|bs|) == 0 ==> Padded(bs) == bs
  {
  }

  /** Bytes, then zeros up to a whole unit. */
  method EncodeOpaque(sink: Sink, bs: seq<byte>) returns (ok: bool)
    requires Ready(sink)
    modifies sink.Repr()
    ensures sink.Kept() == old(sink.Kept())
    ensures Put(sink, old(sink.Written()), Some(Padded(bs)), ok)
  {
    hide Put, Pad, Padded, Zeros, Join, Sink.Refuses, Sink.Written, Sink.Valid, Sink.Kept;
    var pad := Pad(|bs|);
    ghost var before := sink.Written();
    PaddedParts(bs);
    PutEmpty(sink);
    if |bs| == 0 {
      return true;
    }
    ok := EncodeBytes(sink, bs);
    if !ok {
      FailedFirst(sink, before, bs, Some(Zeros(pad)));
      return;
    }
    if pad == 0 {
      return;
    }
    ok := EncodeBytes(sink, Zeros(pad));
    PutSecond(sink, before, bs, Some(Zeros(pad)), ok);
  }

  method EncodeCounted(sink: Sink, bs: seq<byte>) returns (ok: bool)
    requires Ready(sink) && |bs| <= UINT_MAX
    modifies sink.Repr()
    ensures sink.Kept() == old(sink.Kept())
    ensures Put(sink, old(sink.Written()), Some(ToNet(|bs|) + Padded(bs)), ok)
  {
    assert Word(|bs|) == |bs|;
    ghost var before := sink.Written();
    assert Join(Some(ToNet(|bs|)), Some(Padded(bs))) == Some(ToNet(|bs|) + Padded(bs));
    hide ToNet, Word, Padded, Join, Sink.Refuses, Sink.Written, Sink.Valid, Sink.Kept;
    ok := EncodeWord(sink, |bs|);
    if !ok {
      FailedFirst(sink, before, ToNet(|bs|), Some(Padded(bs)));
      return;
    }
    ok := EncodeOpaque(sink, bs);
    PutSecond(sink, before, ToNet(|bs|), Some(Padded(bs)), ok);
  }

  /** The loop over the choices of a union. */
  method FindChoice(arms: seq<Arm>, dflt: Option<Ty>, d: int) returns (t: Option<Ty>)
    ensures t == FindArm(arms, dflt, d)
  {
    var i := 0;
    while i < |arms|
      invariant 0 <= i <= |arms|
      invariant FindArm(arms, dflt, d) == FindArm(arms[i..], dflt, d)
    {
      if arms[i].value == d {
        return Some(arms[i].ty);
      }
      assert arms[i..][1..] == arms[i + 1..];
      i := i + 1;
    }
    return dflt;
  }

  predicate Flat(ty: Ty) {
    !ty.TArray? && !ty.TVector? && !ty.TStruct? && !ty.TUnion? && !ty.TPointer?
  }

  /** The filters of types without components. */
  method EncodeFlat(sink: Sink, prog: Program, ty: Ty, v: Val) returns (ok: bool)
    requires Ready(sink) && Flat(ty)
    modifies sink.Repr()
    ensures sink.Kept() == old(sink.Kept())
    ensures Put(sink, old(sink.Written()), Enc(prog, ty, v), ok)
  {
    assert Word(0) == 0 && Word(1) == 1;
    PutNothing(sink, sink.Written());
    hide Put, ToNet, Word, Padded, EncHyper, Sink.Refuses, Sink.Written, Sink.Valid, Sink.Kept;
    match (ty, v)
    case (TInt(k), VInt(i)) =>
      if !InRange(k, i) {
        return false;
      }
      ok := EncodeWord(sink, i);
    case (THyper, VInt(i)) =>
      if !(-0x8000_0000_0000_0000 <= i < 0x8000_0000_0000_0000) {
        return false;
      }
      ok := EncodeHyper(sink, i);
    case (TUHyper, VInt(i)) =>
      if !(0 <= i < 0x1_0000_0000_0000_0000) {
        return false;
      }
      ok := EncodeHyper(sink, i);
    case (TBool, VBool(b)) => ok := EncodeWord(sink, if b then 1 else 0);
    case (TOpaque(n), VBytes(bs)) =>
      if |bs| != n {
        return false;
      }
      ok := EncodeOpaque(sink, bs);
    case (TBytes(max), VBytes(bs)) =>
      if |bs| > max {
        return false;
      }
      ok := EncodeCounted(sink, bs);
    case (TString(max), VString(s)) =>
      if |s| > max || |s| >= UINT_MAX {
        return false;
      }
      ok := EncodeCounted(sink, s);
    case _ => return false;
  }

  /** Any filter, encoding. */
  method Encode(sink: Sink, prog: Program, ty: Ty, v: Val) returns (ok: bool)
    requires Ready(sink)
    modifies sink.Repr()
    ensures sink.Kept() == old(sink.Kept())
    ensures Put(sink, old(sink.Written()), Enc(prog, ty, v), ok)
    ensures ok ==> XdrLayout.Fits(prog, ty, v)
    decreases v, 2
  {
    XdrLayout.EncodableIff(prog, ty, v);
    hide XdrLayout.Fits;
    if Flat(ty) {
      hide Enc, Put, Sink.Written, Sink.Valid, Sink.Kept;
      ok := EncodeFlat(sink, prog, ty, v);
      return;
    }
    PutNothing(sink, sink.Written());
    assert Word(0) == 0;
    hide Put, ToNet, Word, Padded, EncHyper, Join, Sink.Refuses, Sink.Written, Sink.Valid, Sink.Kept, FindArm;
    match ty
    case TArray(max, elsize, elem) =>
      if !v.VSeq? || |v.vals| > max || |v.vals| > UINT_MAX / elsize {
        return false;
      }
      ok := EncodeArray(sink, prog, elem, v.vals);
    case TVector(n, elem) =>
      if !v.VSeq? || |v.vals| != n {
        return false;
      }
      ok := EncodeMany(sink, prog, elem, v.vals);
    case TStruct(tys) =>
      if !v.VSeq? {
        return false;
      }
      ok := EncodeFields(sink, prog, tys, v.vals);
    case TUnion(arms, dflt) =>
      if !v.VUnion? || !InRange(Int, v.disc) {
        return false;
      }
      ok := EncodeUnion(sink, prog, arms, dflt, v.disc, v.arm);
    case TPointer(t) =>
      if !v.VPtr? {
        return false;
      }
      if v.obj.None? {
        ok := EncodeWord(sink, 0);
        return;
      }
      if t >= |prog| {
        return false;
      }
      ok := EncodePresent(sink, prog, prog[t], v.obj.value);
    case _ => return false;
  }

  /** The count of an array, then its elements. */
  method EncodeArray(sink: Sink, prog: Program, elem: Ty, vs: seq<Val>) returns (ok: bool)
    requires Ready(sink) && |vs| <= UINT_MAX
    modifies sink.Repr()
    ensures sink.Kept() == old(sink.Kept())
    ensures Put(sink, old(sink.Written()), Join(Some(ToNet(|vs|)), EncMany(prog, elem, vs)), ok)
    decreases vs, 4
  {
    assert Word(|vs|) == |vs|;
    ghost var before, body := sink.Written(), EncMany(prog, elem, vs);
    hide EncMany, ToNet, Word, Join, Sink.Refuses, Sink.Written, Sink.Valid, Sink.Kept;
    ok := EncodeWord(sink, |vs|);
    if !ok {
      FailedFirst(sink, before, ToNet(|vs|), body);
      return;
    }
    ok := EncodeMany(sink, prog, elem, vs);
    PutSecond(sink, before, ToNet(|vs|), body, ok);
  }

  /** The discriminant of a union, then the arm it chooses. */
  method EncodeUnion(sink: Sink, prog: Program, arms: seq<Arm>, dflt: Option<Ty>, d: int, v: Val)
    returns (ok: bool)
    requires Ready(sink)
    modifies sink.Repr()
    ensures sink.Kept() == old(sink.Kept())
    ensures var t := FindArm(arms, dflt, d);
            var bytes := if t.None? then None else Join(Some(ToNet(Word(d))), Enc(prog, t.value, v));
            Put(sink, old(sink.Written()), bytes, ok)
    decreases v, 4
  {
    hide Enc, ToNet, Word, Join, Sink.Refuses, Sink.Written, Sink.Valid, Sink.Kept;
    ghost var before, w := sink.Written(), ToNet(Word(d));
    ok := EncodeWord(sink, d);
    var t := FindChoice(arms, dflt, d);
    if !ok {
      if t.Some? {
        FailedFirst(sink, before, w, Enc(prog, t.value, v));
      }
      return;
    }
    if t.None? {
      return false;
    }
    ok := Encode(sink, prog, t.value, v);
    PutSecond(sink, before, w, Enc(prog, t.value, v), ok);
  }

  /** TRUE, then the object. */
  method EncodePresent(sink: Sink, prog: Program, ty: Ty, v: Val) returns (ok: bool)
    requires Ready(sink)
    modifies sink.Repr()
    ensures sink.Kept() == old(sink.Kept())
    ensures Put(sink, old(sink.Written()), Join(Some(ToNet(1)), Enc(prog, ty, v)), ok)
    decreases v, 4
  {
    assert Word(1) == 1;
    hide Enc, ToNet, Word, Join, Sink.Refuses, Sink.Written, Sink.Valid, Sink.Kept;
    ghost var before := sink.Written();
    ok := EncodeWord(sink, 1);
    if !ok {
      FailedFirst(sink, before, ToNet(1), Enc(prog, ty, v));
      return;
    }
    ok := Encode(sink, prog, ty, v);
    PutSecond(sink, before, ToNet(1), Enc(prog, ty, v), ok);
  }

  method EncodeHyper(sink: Sink, i: int) returns (ok: bool)
    requires Ready(sink)
    modifies sink.Repr()
    ensures sink.Kept() == old(sink.Kept())
    ensures Put(sink, old(sink.Written()), EncHyper(i), ok)
  {
    ghost var before := sink.Written();
    ghost var hi, lo := ToNet(Word(i / 0x1_0000_0000)), ToNet(Word(i));
    ok := EncodeWord(sink, i / 0x1_0000_0000);
    if !ok {
      FailedFirst(sink, before, hi, Some(lo));
      return;
    }
    ok := EncodeWord(sink, i);
    PutSecond(sink, before, hi, Some(lo), ok);
  }

  /** The element loop of arrays and vectors. */
  method EncodeMany(sink: Sink, prog: Program, elem: Ty, vs: seq<Val>) returns (ok: bool)
    requires Ready(sink)
    modifies sink.Repr()
    ensures sink.Kept() == old(sink.Kept())
    ensures Put(sink, old(sink.Written()), EncMany(prog, elem, vs), ok)
    decreases vs, 1
  {
    hide Join, Sink.Refuses, Sink.Written, Sink.Valid, Sink.Kept, Enc;
    ghost var done: seq<byte> := [];
    JoinNothing(EncMany(prog, elem, vs));
    assert vs[0..] == vs;
    var i := 0;
    while i < |vs|
      invariant 0 <= i <= |vs|
      invariant Ready(sink) && sink.Kept() == old(sink.Kept())
      invariant sink.Written() == old(sink.Written()) + done
      invariant EncMany(prog, elem, vs) == Join(Some(done), EncMany(prog, elem, vs[i..]))
    {
      ok := Encode(sink, prog, elem, vs[i]);
      ghost var e := Enc(prog, elem, vs[i]);
      assert vs[i..][1..] == vs[i + 1..];
      ghost var rest := EncMany(prog, elem, vs[i + 1..]);
      if !ok {
        FailedPart(sink, old(sink.Written()), done, e, rest);
        return;
      }
      WholeUnits(prog, elem, vs[i]);
      UnitsOf(e);
      PutPart(old(sink.Written()), done, e.value, rest);
      done := done + e.value;
      i := i + 1;
    }
    JoinNothing(Some(done));
    return true;
  }

  /** The fields of a structure, one filter after another. */
  method EncodeFields(sink: Sink, prog: Program, tys: seq<Ty>, vs: seq<Val>) returns (ok: bool)
    requires Ready(sink)
    modifies sink.Repr()
    ensures sink.Kept() == old(sink.Kept())
    ensures Put(sink, old(sink.Written()), EncFields(prog, tys, vs), ok)
    decreases vs, 1
  {
    if |tys| != |vs| {
      return false;
    }
    hide Join, Sink.Refuses, Sink.Written, Sink.Valid, Sink.Kept, Enc;
    ghost var done: seq<byte> := [];
    JoinNothing(EncFields(prog, tys, vs));
    assert vs[0..] == vs && tys[0..] == tys;
    var i := 0;
    while i < |vs|
      invariant 0 <= i <= |vs|
      invariant Ready(sink) && sink.Kept() == old(sink.Kept())
      invariant sink.Written() == old(sink.Written()) + done
      invariant EncFields(prog, tys, vs) == Join(Some(done), EncFields(prog, tys[i..], vs[i..]))
    {
      ok := Encode(sink, prog, tys[i], vs[i]);
      ghost var e := Enc(prog, tys[i], vs[i]);
      assert vs[i..][1..] == vs[i + 1..] && tys[i..][1..] == tys[i + 1..];
      ghost var rest := EncFields(prog, tys[i + 1..], vs[i + 1..]);
      if !ok {
        FailedPart(sink, old(sink.Written()), done, e, rest);
        return;
      }
      WholeUnits(prog, tys[i], vs[i]);
      UnitsOf(e);
      PutPart(old(sink.Written()), done, e.value, rest);
      done := done + e.value;
      i := i + 1;
    }
    JoinNothing(Some(done));
    return true;
  }

  // -- decoding ---------------------------------------------------------------

  /** The contract of a filter that should take `want` off the front of the stream. */
  ghost predicate Took<T>(src: Source, beyond: Rest, want: Parsed<T>, ok: bool, v: T)
    reads src.Repr()
  {
    && src.Valid()
    && (ok <==> want.Got?)
    && (ok ==> want == Got(v, src.Left()) && src.Beyond() == beyond)
  }

  method DecodeWord(src: Source) returns (ok: bool, w: word)
    requires src.Valid()
    modifies src.Repr()
    ensures Took(src, old(src.Beyond()), TakeWord(old(src.Left())), ok, w)
  {
    var got, l := src.GetLong();
    if !got {
      return false, 0;
    }
    WordOfSigned(FromNet(old(src.Left())[..4]));
    return true, Word(l);
  }

  /** Bytes, then the padding, whose contents do not matter. */
  method DecodeOpaque(src: Source, n: nat) returns (ok: bool, data: seq<byte>)
    requires src.Valid()
    modifies src.Repr()
    ensures Took(src, old(src.Beyond()), TakePadded(n, old(src.Left())), ok, data)
  {
    ghost var s := src.Left();
    if n == 0 {
      assert s[..0] == [] && s[0..] == s;
      return true, [];
    }
    ok, data := src.GetBytes(n);
    if !ok || Pad(n) == 0 {
      return;
    }
    var crud;
    ok, crud := src.GetBytes(Pad(n));
    if ok {
      assert s[n..][Pad(n)..] == s[n + Pad(n)..];
    }
  }

  /** Any filter, decoding. */
  method Decode(src: Source, prog: Program, ty: Ty) returns (ok: bool, v: Val)
    requires src.Valid()
    modifies src.Repr()
    ensures Took(src, old(src.Beyond()), Dec(prog, ty, old(src.Left())), ok, v)
    decreases |src.Left()|, ty, 0
  {
    hide TakeWord, TakePadded, Source.Left, Source.Beyond, Source.Valid, FindArm, CString, Narrow;
    v := VBool(false);
    match ty
    case TInt(k) =>
      var w;
      ok, w := DecodeWord(src);
      v := VInt(Narrow(k, w));
    case THyper => ok, v := DecodeHyper(src, true);
    case TUHyper => ok, v := DecodeHyper(src, false);
    case TBool =>
      var w;
      ok, w := DecodeWord(src);
      v := VBool(w != 0);
    case TOpaque(n) =>
      var b;
      ok, b := DecodeOpaque(src, n);
      v := VBytes(b);
    case TBytes(max) =>
      var b;
      ok, b := DecodeCounted(src, max);
      v := VBytes(b);
    case TString(max) =>
      var b;
      ok, b := DecodeCounted(src, if max == UINT_MAX then UINT_MAX - 1 else max);
      v := VString(CString(b));
    case TArray(max, elsize, elem) =>
      var w, vs;
      ok, w := DecodeWord(src);
      if !ok || w > max || w > UINT_MAX / elsize {
        return false, v;
      }
      ok, vs := DecodeMany(src, prog, elem, w);
      v := VSeq(vs);
    case TVector(n, elem) =>
      var vs;
      ok, vs := DecodeMany(src, prog, elem, n);
      v := VSeq(vs);
    case TStruct(tys) =>
      var vs;
      ok, vs := DecodeFields(src, prog, tys);
      v := VSeq(vs);
    case TUnion(arms, dflt) =>
      var w, a;
      ok, w := DecodeWord(src);
      if !ok {
        return;
      }
      var t := FindChoice(arms, dflt, Narrow(Int, w));
      if t.None? {
        return false, v;
      }
      ok, a := Decode(src, prog, t.value);
      v := VUnion(Narrow(Int, w), a);
    case TPointer(t) =>
      var w, a;
      ok, w := DecodeWord(src);
      if !ok {
        return;
      }
      if w == 0 {
        return true, VPtr(None);
      }
      if t >= |prog| {
        return false, v;
      }
      ok, a := Decode(src, prog, prog[t]);
      v := VPtr(Some(a));
  }

  method DecodeHyper(src: Source, signed: bool) returns (ok: bool, v: Val)
    requires src.Valid()
    modifies src.Repr()
    ensures Took(src, old(src.Beyond()), DecHyper(old(src.Left()), signed), ok, v)
  {
    hide TakeWord, Source.Left, Source.Beyond, Source.Valid;
    v := VBool(false);
    var hi, lo;
    ok, hi := DecodeWord(src);
    if !ok {
      return;
    }
    ok, lo := DecodeWord(src);
    v := VInt((if signed then Signed(hi) else hi) * 0x1_0000_0000 + lo);
  }

  /** A count within a bound, then that many bytes. */
  method DecodeCounted(src: Source, max: word) returns (ok: bool, data: seq<byte>)
    requires src.Valid()
    modifies src.Repr()
    ensures var w := TakeWord(old(src.Left()));
            var want := if w.Fail? || w.value > max then Fail else TakePadded(w.value, w.rest);
            Took(src, old(src.Beyond()), want, ok, data)
  {
    hide TakeWord, TakePadded, Source.Left, Source.Beyond, Source.Valid;
    var w;
    ok, w := DecodeWord(src);
    if !ok || w > max {
      return false, [];
    }
    ok, data := DecodeOpaque(src, w);
  }

  /** What is decoded already, followed by what a decoding of the rest gives. */
  function Onto(vs: seq<Val>, p: Parsed<seq<Val>>): Parsed<seq<Val>> {
    match p
    case Fail => Fail
    case Got(ws, rest) => Got(vs + ws, rest)
  }

  lemma OntoPush(vs: seq<Val>, v: Val, p: Parsed<seq<Val>>)
    ensures Onto(vs, Push(v, p)) == Onto(vs + [v], p)
  {
    if p.Got? {
      assert vs + ([v] + p.value) == (vs + [v]) + p.value;
    }
  }

  lemma OntoNothing(p: Parsed<seq<Val>>)
    ensures Onto([], p) == p
  {
    if p.Got? {
      assert [] + p.value == p.value;
    }
  }

  /** The element loop of arrays and vectors. */
  method DecodeMany(src: Source, prog: Program, elem: Ty, n: nat) returns (ok: bool, vs: seq<Val>)
    requires src.Valid()
    modifies src.Repr()
    ensures Took(src, old(src.Beyond()), DecMany(prog, elem, n, old(src.Left())), ok, vs)
    decreases |src.Left()|, elem, 1
  {
    hide Onto, Push, Dec, Source.Left, Source.Beyond, Source.Valid;
    vs := [];
    ghost var want := DecMany(prog, elem, n, src.Left());
    OntoNothing(want);
    var i := 0;
    while i < n
      invariant 0 <= i <= n
      invariant src.Valid() && src.Beyond() == old(src.Beyond())
      invariant |src.Left()| <= |old(src.Left())|
      invariant want == Onto(vs, DecMany(prog, elem, n - i, src.Left()))
    {
      ghost var s := src.Left();
      var v;
      ok, v := Decode(src, prog, elem);
      if !ok {
        OntoFail(vs);
        return;
      }
      OntoPush(vs, v, DecMany(prog, elem, n - i - 1, src.Left()));
      vs := vs + [v];
      i := i + 1;
    }
    OntoEnd(vs, src.Left());
    return true, vs;
  }

  lemma OntoFail(vs: seq<Val>)
    ensures Onto(vs, Fail) == Fail
  {
  }

  lemma OntoEnd(vs: seq<Val>, rest: seq<byte>)
    ensures Onto(vs, Got([], rest)) == Got(vs, rest)
  {
    assert vs + [] == vs;
  }

  /** The fields of a structure, one filter after another. */
  method DecodeFields(src: Source, prog: Program, tys: seq<Ty>) returns (ok: bool, vs: seq<Val>)
    requires src.Valid()
    modifies src.Repr()
    ensures Took(src, old(src.Beyond()), DecFields(prog, tys, old(src.Left())), ok, vs)
    decreases |src.Left()|, tys, 1
  {
    hide Onto, Push, Dec, Source.Left, Source.Beyond, Source.Valid;
    vs := [];
    ghost var want := DecFields(prog, tys, src.Left());
    OntoNothing(want);
    assert tys[0..] == tys;
    var i := 0;
    while i < |tys|
      invariant 0 <= i <= |tys|
      invariant src.Valid() && src.Beyond() == old(src.Beyond())
      invariant |src.Left()| <= |old(src.Left())|
      invariant want == Onto(vs, DecFields(prog, tys[i..], src.Left()))
    {
      assert tys[i..][1..] == tys[i + 1..];
      var v;
      ok, v := Decode(src, prog, tys[i]);
      if !ok {
        OntoFail(vs);
        return;
      }
      OntoPush(vs, v, DecFields(prog, tys[i + 1..], src.Left()));
      vs := vs + [v];
      i := i + 1;
    }
    OntoEnd(vs, src.Left());
    return true, vs;
  }
}
