/** What the encoding and the decoding promise each other. */
module XdrCodec {
  import opened Bytes
  import opened XdrData

  lemma TakeWordBack(w: word, t: seq<byte>)
    ensures TakeWord(ToNet(w) + t) == Got(w, t)
  {
    FromNetOfToNet(w);
    assert (ToNet(w) + t)[..4] == ToNet(w) && (ToNet(w) + t)[4..] == t;
  }

  lemma TakePaddedBack(bs: seq<byte>, t: seq<byte>)
    ensures TakePadded(|bs|, Padded(bs) + t) == Got(bs, t)
  {
    var s, n := Padded(bs) + t, |bs| + Pad(|bs|);
    assert s[..|bs|] == bs && s[n..] == t;
  }

  lemma NarrowBack(k: Kind, i: int)
    requires InRange(k, i)
    ensures Narrow(k, Word(i)) == i
  {
  }

  lemma HyperBack(i: int, t: seq<byte>, signed: bool)
    requires if signed then -0x8000_0000_0000_0000 <= i < 0x8000_0000_0000_0000
             else 0 <= i < 0x1_0000_0000_0000_0000
    ensures DecHyper(EncHyper(i).value + t, signed) == Got(VInt(i), t)
  {
    var h, l := i / 0x1_0000_0000, i % 0x1_0000_0000;
    assert i == h * 0x1_0000_0000 + l;
    assert Word(i) == l && (signed ==> Signed(Word(h)) == h) && (!signed ==> Word(h) == h);
    hide ToNet, FromNet;
    assert EncHyper(i).value + t == ToNet(Word(h)) + (ToNet(l) + t);
    TakeWordBack(Word(h), ToNet(l) + t);
    TakeWordBack(l, t);
  }

  /**
   * Round trip: decoding the encoding of a value gives the value back and consumes
   * exactly the bytes of the encoding, for every type and to any pointer depth.
   */
  lemma {:induction false} RoundTrip(prog: Program, ty: Ty, v: Val, t: seq<byte>)
    requires Enc(prog, ty, v).Some?
    ensures Dec(prog, ty, Enc(prog, ty, v).value + t) == Got(v, t)
    decreases v, 1
  {
    hide ToNet, FromNet, TakeWord, TakePadded, Padded, Narrow, DecHyper, EncHyper;
    match ty
    case TInt(k) =>
      NarrowBack(k, v.i);
      TakeWordBack(Word(v.i), t);
    case THyper => HyperBack(v.i, t, true);
    case TUHyper => HyperBack(v.i, t, false);
    case TBool => TakeWordBack(if v.b then 1 else 0, t);
    case TOpaque(_) => TakePaddedBack(v.bytes, t);
    case TBytes(_) => CountedBack(v.bytes, t);
    case TString(_) => CountedBack(v.str, t);
    case TArray(_, _, elem) =>
      RoundTripMany(prog, elem, v.vals, t);
      WordThen(|v.vals|, EncMany(prog, elem, v.vals).value, t);
    case TVector(_, elem) => RoundTripMany(prog, elem, v.vals, t);
    case TStruct(tys) => RoundTripFields(prog, tys, v.vals, t);
    case TUnion(arms, dflt) =>
      NarrowBack(Int, v.disc);
      var a := FindArm(arms, dflt, v.disc).value;
      RoundTrip(prog, a, v.arm, t);
      WordThen(Word(v.disc), Enc(prog, a, v.arm).value, t);
    case TPointer(n) =>
      if v.obj.None? {
        TakeWordBack(0, t);
      } else {
        RoundTrip(prog, prog[n], v.obj.value, t);
        WordThen(1, Enc(prog, prog[n], v.obj.value).value, t);
      }
  }

  /** A word in front of other data is taken off, leaving the data. */
  lemma WordThen(w: word, body: seq<byte>, t: seq<byte>)
    ensures TakeWord((ToNet(w) + body) + t) == Got(w, body + t)
  {
    assert (ToNet(w) + body) + t == ToNet(w) + (body + t);
    TakeWordBack(w, body + t);
  }

  lemma CountedBack(bs: seq<byte>, t: seq<byte>)
    requires |bs| <= UINT_MAX
    ensures TakeWord((ToNet(|bs|) + Padded(bs)) + t) == Got(|bs|, Padded(bs) + t)
    ensures TakePadded(|bs|, Padded(bs) + t) == Got(bs, t)
  {
    WordThen(|bs|, Padded(bs), t);
    TakePaddedBack(bs, t);
  }

  lemma {:induction false} RoundTripMany(prog: Program, elem: Ty, vs: seq<Val>, t: seq<byte>)
    requires EncMany(prog, elem, vs).Some?
    ensures DecMany(prog, elem, |vs|, EncMany(prog, elem, vs).value + t) == Got(vs, t)
    decreases vs, 0
  {
    if vs == [] {
      assert [] + t == t;
    } else {
      var a, b := Enc(prog, elem, vs[0]).value, EncMany(prog, elem, vs[1..]).value;
      assert (a + b) + t == a + (b + t);
      RoundTrip(prog, elem, vs[0], b + t);
      RoundTripMany(prog, elem, vs[1..], t);
      assert [vs[0]] + vs[1..] == vs;
    }
  }

  lemma {:induction false} RoundTripFields(prog: Program, tys: seq<Ty>, vs: seq<Val>, t: seq<byte>)
    requires EncFields(prog, tys, vs).Some?
    ensures DecFields(prog, tys, EncFields(prog, tys, vs).value + t) == Got(vs, t)
    decreases vs, 0
  {
    if vs == [] {
      assert [] + t == t;
    } else {
      var a, b := Enc(prog, tys[0], vs[0]).value, EncFields(prog, tys[1..], vs[1..]).value;
      assert (a + b) + t == a + (b + t);
      RoundTrip(prog, tys[0], vs[0], b + t);
      RoundTripFields(prog, tys[1..], vs[1..], t);
      assert [vs[0]] + vs[1..] == vs;
    }
  }

  /** No encoding of a type starts another: values can follow one another in a stream. */
  lemma PrefixFree(prog: Program, ty: Ty, v: Val, w: Val)
    requires Enc(prog, ty, v).Some? && Enc(prog, ty, w).Some?
    requires Enc(prog, ty, v).value <= Enc(prog, ty, w).value
    ensures v == w
  {
    hide Enc, Dec;
    var a, b := Enc(prog, ty, v).value, Enc(prog, ty, w).value;
    assert b == a + b[|a|..] && b + [] == b;
    RoundTrip(prog, ty, v, b[|a|..]);
    RoundTrip(prog, ty, w, []);
  }

  predicate Units(r: Option<seq<byte>>) {
    r.Some? ==> |r.value| % 4 == 0
  }

  lemma UnitsJoin(a: Option<seq<byte>>, b: Option<seq<byte>>)
    requires Units(a) && Units(b)
    ensures Units(Join(a, b))
  {
    if a.Some? && b.Some? {
      assert |a.value + b.value| == |a.value| + |b.value|;
    }
  }

  lemma PaddedUnits(bs: seq<byte>)
    ensures |Padded(bs)| % 4 == 0
  {
  }

  lemma UnitsCounted(bs: seq<byte>)
    requires |bs| <= UINT_MAX
    ensures |ToNet(|bs|) + Padded(bs)| % 4 == 0
  {
    PaddedUnits(bs);
    UnitsJoin(Some(ToNet(|bs|)), Some(Padded(bs)));
  }

  /** Every encoding is a whole number of XDR units. */
  lemma {:induction false} WholeUnits(prog: Program, ty: Ty, v: Val)
    ensures Units(Enc(prog, ty, v))
    decreases v, 1
  {
    hide ToNet, Word, Padded, Units, Join;
    if Enc(prog, ty, v).Some? {
      match ty
      case TOpaque(_) => PaddedUnits(v.bytes);
      case TBytes(_) => UnitsCounted(v.bytes);
      case TString(_) => UnitsCounted(v.str);
      case TArray(_, _, elem) =>
        WholeUnitsMany(prog, elem, v.vals);
        UnitsPrefix(|v.vals|, EncMany(prog, elem, v.vals));
      case TVector(_, elem) => WholeUnitsMany(prog, elem, v.vals);
      case TStruct(tys) => WholeUnitsFields(prog, tys, v.vals);
      case TUnion(arms, dflt) =>
        var a := FindArm(arms, dflt, v.disc).value;
        WholeUnits(prog, a, v.arm);
        UnitsPrefix(Word(v.disc), Enc(prog, a, v.arm));
      case TPointer(n) =>
        if v.obj.Some? {
          WholeUnits(prog, prog[n], v.obj.value);
          UnitsPrefix(1, Enc(prog, prog[n], v.obj.value));
        }
      case _ =>
    }
    UnitsOf(Enc(prog, ty, v));
  }

  lemma UnitsOf(r: Option<seq<byte>>)
    ensures Units(r) <==> r.None? || |r.value| % 4 == 0
  {
  }

  lemma UnitsPrefix(w: word, b: Option<seq<byte>>)
    requires Units(b)
    ensures Units(Join(Some(ToNet(w)), b))
  {
    UnitsJoin(Some(ToNet(w)), b);
  }

  lemma {:induction false} WholeUnitsMany(prog: Program, elem: Ty, vs: seq<Val>)
    ensures Units(EncMany(prog, elem, vs))
    decreases vs, 0
  {
    if vs != [] {
      hide Units, Join;
      WholeUnits(prog, elem, vs[0]);
      WholeUnitsMany(prog, elem, vs[1..]);
      UnitsJoin(Enc(prog, elem, vs[0]), EncMany(prog, elem, vs[1..]));
    }
  }

  lemma {:induction false} WholeUnitsFields(prog: Program, tys: seq<Ty>, vs: seq<Val>)
    ensures Units(EncFields(prog, tys, vs))
    decreases vs, 0
  {
    if |tys| == |vs| && vs != [] {
      hide Units, Join;
      WholeUnits(prog, tys[0], vs[0]);
      WholeUnitsFields(prog, tys[1..], vs[1..]);
      UnitsJoin(Enc(prog, tys[0], vs[0]), EncFields(prog, tys[1..], vs[1..]));
    }
  }

  /** Decoding looks at no byte beyond those it consumes. */
  lemma {:induction false} NoLookahead(prog: Program, ty: Ty, s: seq<byte>, t: seq<byte>)
    requires Dec(prog, ty, s).Got?
    ensures var r := Dec(prog, ty, s); Dec(prog, ty, s + t) == Got(r.value, r.rest + t)
    decreases |s|, ty, 0
  {
    hide FromNet, TakePadded, TakeWord, Narrow, CString;
    WordMore(s, t);
    match ty
    case THyper => WordMore(TakeWord(s).rest, t);
    case TUHyper => WordMore(TakeWord(s).rest, t);
    case TOpaque(n) => PaddedMore(n, s, t);
    case TBytes(_) => PaddedMore(TakeWord(s).value, TakeWord(s).rest, t);
    case TString(_) => PaddedMore(TakeWord(s).value, TakeWord(s).rest, t);
    case TArray(_, _, elem) => NoLookaheadMany(prog, elem, TakeWord(s).value, TakeWord(s).rest, t);
    case TVector(n, elem) => NoLookaheadMany(prog, elem, n, s, t);
    case TStruct(tys) => NoLookaheadFields(prog, tys, s, t);
    case TUnion(arms, dflt) =>
      var w := TakeWord(s);
      NoLookahead(prog, FindArm(arms, dflt, Narrow(Int, w.value)).value, w.rest, t);
    case TPointer(n) =>
      var w := TakeWord(s);
      if w.value != 0 {
        NoLookahead(prog, prog[n], w.rest, t);
      }
    case _ =>
  }

  lemma WordMore(s: seq<byte>, t: seq<byte>)
    ensures var r := TakeWord(s); r.Got? ==> TakeWord(s + t) == Got(r.value, r.rest + t)
  {
    if |s| >= 4 {
      assert (s + t)[..4] == s[..4] && (s + t)[4..] == s[4..] + t;
    }
  }

  lemma PaddedMore(n: nat, s: seq<byte>, t: seq<byte>)
    ensures var r := TakePadded(n, s); r.Got? ==> TakePadded(n, s + t) == Got(r.value, r.rest + t)
  {
    var m := n + Pad(n);
    if |s| >= m {
      assert (s + t)[..n] == s[..n] && (s + t)[m..] == s[m..] + t;
    }
  }

  lemma {:induction false} NoLookaheadMany(prog: Program, elem: Ty, n: nat, s: seq<byte>, t: seq<byte>)
    requires DecMany(prog, elem, n, s).Got?
    ensures var r := DecMany(prog, elem, n, s);
            DecMany(prog, elem, n, s + t) == Got(r.value, r.rest + t)
    decreases |s|, elem, n + 1
  {
    if n > 0 {
      NoLookahead(prog, elem, s, t);
      NoLookaheadMany(prog, elem, n - 1, Dec(prog, elem, s).rest, t);
    }
  }

  lemma {:induction false} NoLookaheadFields(prog: Program, tys: seq<Ty>, s: seq<byte>, t: seq<byte>)
    requires DecFields(prog, tys, s).Got?
    ensures var r := DecFields(prog, tys, s);
            DecFields(prog, tys, s + t) == Got(r.value, r.rest + t)
    decreases |s|, tys, 0
  {
    if tys != [] {
      NoLookahead(prog, tys[0], s, t);
      NoLookaheadFields(prog, tys[1..], Dec(prog, tys[0], s).rest, t);
    }
  }
}
