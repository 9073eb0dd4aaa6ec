/**
 * What the bytes of section 4 of RFC 4506 look like, and which values there are bytes
 * for, said with numbers and positions alone: none of the functions that the encoding
 * and the decoding are built from appears in a law here.
 */
module XdrLayout {
  import opened Bytes
  import opened XdrData

  // -- which values a type has ------------------------------------------------

  predicate IntFits(k: Kind, i: int) {
    match k
    case Short => -32768 <= i <= 32767
    case UShort => 0 <= i <= 65535
    case Int => -2147483648 <= i <= 2147483647
    case Long => -2147483648 <= i <= 2147483647
    case UInt => 0 <= i <= 4294967295
    case ULong => 0 <= i <= 4294967295
  }

  /** Arm k is the first one with the discriminant. */
  ghost predicate Chooses(arms: seq<Arm>, d: int, k: nat) {
    k < |arms| && arms[k].value == d && forall j :: 0 <= j < k ==> arms[j].value != d
  }

  ghost predicate NoArm(arms: seq<Arm>, d: int) {
    forall j :: 0 <= j < |arms| ==> arms[j].value != d
  }

  /** A value within the bounds of its type. */
  ghost predicate Fits(prog: Program, ty: Ty, v: Val)
    decreases v
  {
    match ty
    case TInt(k) => v.VInt? && IntFits(k, v.i)
    case THyper => v.VInt? && -9223372036854775808 <= v.i <= 9223372036854775807
    case TUHyper => v.VInt? && 0 <= v.i <= 18446744073709551615
    case TBool => v.VBool?
    case TOpaque(n) => v.VBytes? && |v.bytes| == n
    case TBytes(max) => v.VBytes? && |v.bytes| <= max
    case TString(max) => v.VString? && |v.str| <= max && |v.str| < 4294967295
    case TArray(max, elsize, elem) =>
      && v.VSeq? && |v.vals| <= max && |v.vals| * elsize <= 4294967295
      && forall i :: 0 <= i < |v.vals| ==> Fits(prog, elem, v.vals[i])
    case TVector(n, elem) =>
      v.VSeq? && |v.vals| == n && forall i :: 0 <= i < |v.vals| ==> Fits(prog, elem, v.vals[i])
    case TStruct(tys) =>
      v.VSeq? && |v.vals| == |tys| && forall i :: 0 <= i < |v.vals| ==> Fits(prog, tys[i], v.vals[i])
    case TUnion(arms, dflt) =>
      && v.VUnion? && IntFits(Int, v.disc)
      && ((exists k: nat :: Chooses(arms, v.disc, k) && Fits(prog, arms[k].ty, v.arm))
          || (NoArm(arms, v.disc) && dflt.Some? && Fits(prog, dflt.value, v.arm)))
    case TPointer(t) =>
      v.VPtr? && (v.obj.Some? ==> t < |prog| && Fits(prog, prog[t], v.obj.value))
  }

  /** The loop over the choices finds the first arm with the discriminant, else the default. */
  lemma {:induction false} FindArmIsFirst(arms: seq<Arm>, dflt: Option<Ty>, d: int)
    ensures NoArm(arms, d) ==> FindArm(arms, dflt, d) == dflt
    ensures forall k: nat :: Chooses(arms, d, k) ==> FindArm(arms, dflt, d) == Some(arms[k].ty)
    ensures NoArm(arms, d) || exists k: nat :: Chooses(arms, d, k)
    decreases arms
  {
    if arms != [] {
      var rest := arms[1..];
      FindArmIsFirst(rest, dflt, d);
      if arms[0].value == d {
        assert Chooses(arms, d, 0);
      } else {
        forall k: nat | Chooses(arms, d, k) ensures FindArm(arms, dflt, d) == Some(arms[k].ty) {
          assert arms[k] == rest[k - 1];
          assert Chooses(rest, d, k - 1) by {
            assert forall j :: 0 <= j < |rest| ==> rest[j] == arms[j + 1];
          }
        }
        if NoArm(rest, d) {
          assert forall j :: 0 < j < |arms| ==> arms[j] == rest[j - 1];
        } else {
          var k: nat :| Chooses(rest, d, k);
          assert forall j :: 0 < j < |arms| ==> arms[j] == rest[j - 1];
          assert Chooses(arms, d, k + 1);
        }
      }
    }
  }

  /** A union fits exactly when the arm that the loop finds fits. */
  lemma UnionFits(prog: Program, arms: seq<Arm>, dflt: Option<Ty>, d: int, w: Val)
    ensures Fits(prog, TUnion(arms, dflt), VUnion(d, w)) <==>
            IntFits(Int, d) && FindArm(arms, dflt, d).Some? && Fits(prog, FindArm(arms, dflt, d).value, w)
  {
    FindArmIsFirst(arms, dflt, d);
    hide FindArm, IntFits;
    if k: nat :| Chooses(arms, d, k) {
      assert !NoArm(arms, d);
    }
  }

  lemma ArrayBound(n: nat, elsize: size)
    ensures n <= UINT_MAX / elsize <==> n * elsize <= 4294967295
  {
    var q := UINT_MAX / elsize;
    assert q * elsize <= UINT_MAX < (q + 1) * elsize;
    if n <= q {
      assert n * elsize <= q * elsize;
    } else {
      assert (q + 1) * elsize <= n * elsize;
    }
  }

  /** A value has an encoding exactly when it fits its type. */
  lemma {:induction false} EncodableIff(prog: Program, ty: Ty, v: Val)
    ensures Enc(prog, ty, v).Some? <==> Fits(prog, ty, v)
    decreases v, 1
  {
    match (ty, v)
    case (TArray(_, elsize, elem), VSeq(vs)) =>
      ArrayBound(|vs|, elsize);
      EncodableMany(prog, elem, vs);
    case (TVector(_, elem), VSeq(vs)) => EncodableMany(prog, elem, vs);
    case (TStruct(tys), VSeq(vs)) => EncodableFields(prog, tys, vs);
    case (TUnion(arms, dflt), VUnion(d, w)) =>
      UnionFits(prog, arms, dflt, d, w);
      if FindArm(arms, dflt, d).Some? {
        EncodableIff(prog, FindArm(arms, dflt, d).value, w);
      }
    case (TPointer(t), VPtr(Some(w))) =>
      if t < |prog| {
        EncodableIff(prog, prog[t], w);
      }
    case _ =>
  }

  lemma {:induction false} EncodableMany(prog: Program, elem: Ty, vs: seq<Val>)
    ensures EncMany(prog, elem, vs).Some? <==> forall i :: 0 <= i < |vs| ==> Fits(prog, elem, vs[i])
    decreases vs, 0
  {
    if vs != [] {
      EncodableIff(prog, elem, vs[0]);
      EncodableMany(prog, elem, vs[1..]);
      hide Fits, Enc;
      assert forall i :: 0 < i < |vs| ==> vs[i] == vs[1..][i - 1];
    }
  }

  lemma {:induction false} EncodableFields(prog: Program, tys: seq<Ty>, vs: seq<Val>)
    ensures EncFields(prog, tys, vs).Some? <==>
            |tys| == |vs| && forall i :: 0 <= i < |vs| ==> Fits(prog, tys[i], vs[i])
    decreases vs, 0
  {
    if |tys| == |vs| && vs != [] {
      EncodableIff(prog, tys[0], vs[0]);
      EncodableFields(prog, tys[1..], vs[1..]);
      hide Fits, Enc;
      assert forall i :: 0 < i < |vs| ==> vs[i] == vs[1..][i - 1] && tys[i] == tys[1..][i - 1];
    }
  }

  /** What is decoded is within the bounds of its type: anything else is refused. */
  lemma {:induction false} DecodedFits(prog: Program, ty: Ty, s: seq<byte>)
    ensures Dec(prog, ty, s).Got? ==> Fits(prog, ty, Dec(prog, ty, s).value)
    decreases |s|, ty, 0
  {
    hide FromNet, TakePadded, CString, FindArm;
    match ty
    case TArray(_, elsize, elem) =>
      var w := TakeWord(s);
      if w.Got? {
        ArrayBound(w.value, elsize);
        DecodedMany(prog, elem, w.value, w.rest);
      }
    case TVector(n, elem) => DecodedMany(prog, elem, n, s);
    case TStruct(tys) => DecodedFields(prog, tys, s);
    case TUnion(arms, dflt) =>
      var r := Dec(prog, ty, s);
      if r.Got? {
        var w := TakeWord(s);
        UnionFits(prog, arms, dflt, r.value.disc, r.value.arm);
        DecodedFits(prog, FindArm(arms, dflt, Narrow(Int, w.value)).value, w.rest);
      }
    case TPointer(t) =>
      var w := TakeWord(s);
      if w.Got? && w.value != 0 && t < |prog| {
        DecodedFits(prog, prog[t], w.rest);
      }
    case _ =>
  }

  lemma {:induction false} DecodedMany(prog: Program, elem: Ty, n: nat, s: seq<byte>)
    ensures var r := DecMany(prog, elem, n, s);
            r.Got? ==> AllFit(prog, elem, r.value)
    decreases |s|, elem, n + 1
  {
    hide Fits, Dec;
    if n == 0 {
      assert AllFit(prog, elem, []);
    }
    hide AllFit;
    if DecMany(prog, elem, n, s).Got? && n > 0 {
      DecodedFits(prog, elem, s);
      DecodedMany(prog, elem, n - 1, Dec(prog, elem, s).rest);
      FitsCons(prog, elem, Dec(prog, elem, s).value, DecMany(prog, elem, n - 1, Dec(prog, elem, s).rest).value);
    }
  }

  ghost predicate AllFit(prog: Program, elem: Ty, vs: seq<Val>) {
    forall i :: 0 <= i < |vs| ==> Fits(prog, elem, vs[i])
  }

  lemma FitsCons(prog: Program, elem: Ty, v: Val, vs: seq<Val>)
    requires Fits(prog, elem, v) && AllFit(prog, elem, vs)
    ensures AllFit(prog, elem, [v] + vs)
  {
    hide Fits;
    assert forall i :: 0 < i < |vs| + 1 ==> ([v] + vs)[i] == vs[i - 1];
  }

  lemma {:induction false} DecodedFields(prog: Program, tys: seq<Ty>, s: seq<byte>)
    ensures var r := DecFields(prog, tys, s);
            r.Got? ==> forall i :: 0 <= i < |tys| ==> Fits(prog, tys[i], r.value[i])
    decreases |s|, tys, 0
  {
    if DecFields(prog, tys, s).Got? && tys != [] {
      DecodedFits(prog, tys[0], s);
      DecodedFields(prog, tys[1..], Dec(prog, tys[0], s).rest);
      hide Fits, Dec;
      assert forall i :: 0 < i < |tys| ==> tys[i] == tys[1..][i - 1];
    }
  }

  // -- what is encoded --------------------------------------------------------

  /** The data, then zeros up to the next multiple of four. */
  ghost predicate LaidOut(b: seq<byte>, data: seq<byte>) {
    && data <= b && |b| % 4 == 0 && |b| < |data| + 4
    && forall i :: |data| <= i < |b| ==> b[i] == 0
  }

  /** A big-endian count of the data, then the data laid out. */
  ghost predicate Counted(b: seq<byte>, data: seq<byte>) {
    |b| >= 4 && BigEndian(b[..4]) == |data| && LaidOut(b[4..], data)
  }

  function Concat(parts: seq<seq<byte>>): seq<byte> {
    if parts == [] then [] else parts[0] + Concat(parts[1..])
  }

  /** The encodings of the values one after another, each by the type at its place. */
  ghost predicate InRow(prog: Program, tys: seq<Ty>, vs: seq<Val>, b: seq<byte>) {
    |tys| == |vs| &&
    exists parts: seq<seq<byte>> ::
      |parts| == |vs| && b == Concat(parts) && forall i :: 0 <= i < |vs| ==> Enc(prog, tys[i], vs[i]) == Some(parts[i])
  }

  /** The bytes of a value, type by type, as RFC 4506 lays them down. */
  lemma EncodingLayout(prog: Program, ty: Ty, v: Val)
    requires Enc(prog, ty, v).Some?
    ensures var b := Enc(prog, ty, v).value;
            match ty
            case TInt(_) => |b| == 4 && (BigEndian(b) - v.i) % 4294967296 == 0
            case THyper => |b| == 8 && (BigEndian(b) - v.i) % 18446744073709551616 == 0
            case TUHyper => |b| == 8 && BigEndian(b) == v.i
            case TBool => |b| == 4 && BigEndian(b) == if v.b then 1 else 0
            case TOpaque(_) => LaidOut(b, v.bytes)
            case TBytes(_) => Counted(b, v.bytes)
            case TString(_) => Counted(b, v.str)
            case TArray(_, _, elem) =>
              && |b| >= 4 && BigEndian(b[..4]) == |v.vals|
              && InRow(prog, seq(|v.vals|, _ => elem), v.vals, b[4..])
            case TVector(_, elem) => InRow(prog, seq(|v.vals|, _ => elem), v.vals, b)
            case TStruct(tys) => InRow(prog, tys, v.vals, b)
            case TUnion(arms, dflt) =>
              && |b| >= 4 && (BigEndian(b[..4]) - v.disc) % 4294967296 == 0
              && FindArm(arms, dflt, v.disc).Some?
              && Enc(prog, FindArm(arms, dflt, v.disc).value, v.arm) == Some(b[4..])
            case TPointer(t) =>
              if v.obj.None? then |b| == 4 && BigEndian(b) == 0
              else |b| >= 4 && BigEndian(b[..4]) == 1 && t < |prog| && Enc(prog, prog[t], v.obj.value) == Some(b[4..])
  {
    hide ToNet, BigEndian, Padded, EncHyper, LaidOut, Counted, InRow, FindArm, EncMany, EncFields;
    match (ty, v)
    case (TInt(_), VInt(i)) => NetIsBigEndian(Word(i), ToNet(Word(i)));
    case (THyper, VInt(i)) => HyperLayout(i);
    case (TUHyper, VInt(i)) => HyperLayout(i);
    case (TBool, VBool(b)) => NetIsBigEndian(if b then 1 else 0, ToNet(0));
    case (TOpaque(_), VBytes(bs)) => PaddedLayout(bs);
    case (TBytes(_), VBytes(bs)) => CountedLayout(bs);
    case (TString(_), VString(t)) => CountedLayout(t);
    case (TArray(_, _, elem), VSeq(vs)) =>
      WordFirst(|vs|, EncMany(prog, elem, vs).value);
      ManyInRow(prog, elem, vs);
    case (TVector(_, elem), VSeq(vs)) => ManyInRow(prog, elem, vs);
    case (TStruct(tys), VSeq(vs)) => FieldsInRow(prog, tys, vs);
    case (TUnion(arms, dflt), VUnion(d, w)) =>
      WordFirst(Word(d), Enc(prog, FindArm(arms, dflt, d).value, w).value);
    case (TPointer(_), VPtr(None)) => NetIsBigEndian(0, ToNet(0));
    case (TPointer(t), VPtr(Some(w))) => WordFirst(1, Enc(prog, prog[t], w).value);
  }

  lemma WordFirst(w: word, body: seq<byte>)
    ensures var b := ToNet(w) + body; b[4..] == body && BigEndian(b[..4]) == w
  {
    NetIsBigEndian(w, ToNet(w));
    assert (ToNet(w) + body)[..4] == ToNet(w);
  }

  lemma PaddedLayout(bs: seq<byte>)
    ensures LaidOut(Padded(bs), bs)
  {
    assert |Padded(bs)| % 4 == 0;
  }

  lemma CountedLayout(bs: seq<byte>)
    requires |bs| <= UINT_MAX
    ensures Counted(ToNet(|bs|) + Padded(bs), bs)
  {
    WordFirst(|bs|, Padded(bs));
    PaddedLayout(bs);
  }

  lemma HyperLayout(i: int)
    ensures var b := EncHyper(i).value; |b| == 8 && (BigEndian(b) - i) % 18446744073709551616 == 0
    ensures 0 <= i < 18446744073709551616 ==> BigEndian(EncHyper(i).value) == i
  {
    var h, l := Word(i / 0x1_0000_0000), Word(i);
    BigEndianJoin(ToNet(h), ToNet(l));
    NetIsBigEndian(h, ToNet(h));
    NetIsBigEndian(l, ToNet(l));
    hide ToNet, BigEndian;
    var q := i / 0x1_0000_0000;
    assert i == q * 0x1_0000_0000 + l && q == (q / 0x1_0000_0000) * 0x1_0000_0000 + h;
    var m: int, n: int := q / 0x1_0000_0000, h as int * 0x1_0000_0000 + l as int;
    assert i == m * 0x1_0000_0000_0000_0000 + n && 0 <= n < 0x1_0000_0000_0000_0000;
    assert (n - i) == (-m) * 0x1_0000_0000_0000_0000;
  }

  /** Eight bytes are two numbers of four, the more significant first. */
  lemma BigEndianJoin(a: seq<byte>, b: seq<byte>)
    requires |b| == 4
    ensures BigEndian(a + b) == BigEndian(a) * 0x1_0000_0000 + BigEndian(b)
  {
    BigEndianOfFour(b);
    var s := a + b;
    var s3, s2, s1 := s[..|s| - 1], s[..|s| - 2], s[..|s| - 3];
    assert s3[..|s3| - 1] == s2 && s2[..|s2| - 1] == s1 && s1[..|s1| - 1] == a;
    assert BigEndian(s1) == BigEndian(a) * 0x100 + b[0];
    assert BigEndian(s2) == BigEndian(s1) * 0x100 + b[1];
    assert BigEndian(s3) == BigEndian(s2) * 0x100 + b[2];
    assert BigEndian(s) == BigEndian(s3) * 0x100 + b[3];
  }

  lemma RowCons(prog: Program, tys: seq<Ty>, vs: seq<Val>, e: seq<byte>, rest: seq<byte>)
    requires |tys| == |vs| > 0 && Enc(prog, tys[0], vs[0]) == Some(e) && InRow(prog, tys[1..], vs[1..], rest)
    ensures InRow(prog, tys, vs, e + rest)
  {
    hide Enc;
    var ps: seq<seq<byte>> :| |ps| == |vs[1..]| && rest == Concat(ps)
      && forall i :: 0 <= i < |vs[1..]| ==> Enc(prog, tys[1..][i], vs[1..][i]) == Some(ps[i]);
    var parts := [e] + ps;
    assert parts[1..] == ps;
    forall i | 0 <= i < |vs| ensures Enc(prog, tys[i], vs[i]) == Some(parts[i]) {
      if i > 0 {
        assert tys[i] == tys[1..][i - 1] && vs[i] == vs[1..][i - 1];
      }
    }
  }

  lemma {:induction false} ManyInRow(prog: Program, elem: Ty, vs: seq<Val>)
    requires EncMany(prog, elem, vs).Some?
    ensures InRow(prog, seq(|vs|, _ => elem), vs, EncMany(prog, elem, vs).value)
    decreases vs
  {
    hide Enc;
    var tys := seq(|vs|, _ => elem);
    if vs == [] {
      assert Concat([]) == [];
    } else {
      ManyInRow(prog, elem, vs[1..]);
      assert tys[1..] == seq(|vs[1..]|, _ => elem);
      RowCons(prog, tys, vs, Enc(prog, elem, vs[0]).value, EncMany(prog, elem, vs[1..]).value);
    }
  }

  lemma {:induction false} FieldsInRow(prog: Program, tys: seq<Ty>, vs: seq<Val>)
    requires EncFields(prog, tys, vs).Some?
    ensures InRow(prog, tys, vs, EncFields(prog, tys, vs).value)
    decreases vs
  {
    hide Enc;
    if vs == [] {
      assert Concat([]) == [];
    } else {
      FieldsInRow(prog, tys[1..], vs[1..]);
      RowCons(prog, tys, vs, Enc(prog, tys[0], vs[0]).value, EncFields(prog, tys[1..], vs[1..]).value);
    }
  }

  // -- what is decoded --------------------------------------------------------

  function RoundUp(n: nat): nat {
    (n + 3) / 4 * 4
  }

  /** The count at the front is c, at most max, and that many bytes follow with their padding. */
  ghost predicate Announced(s: seq<byte>, max: int) {
    |s| >= 4 && BigEndian(s[..4]) <= max && |s| >= 4 + RoundUp(BigEndian(s[..4]))
  }

  function Modulus(k: Kind): int {
    if k == Short || k == UShort then 65536 else 4294967296
  }

  /** Any four bytes are an integer of any kind: that of its range with the same low bits. */
  lemma DecodedInt(prog: Program, k: Kind, s: seq<byte>)
    ensures var r := Dec(prog, TInt(k), s);
            && (r.Got? <==> |s| >= 4)
            && (r.Got? ==> r.value.VInt? && r.rest == s[4..]
                           && IntFits(k, r.value.i) && (r.value.i - BigEndian(s[..4])) % Modulus(k) == 0)
  {
    TakenWord(s);
    if |s| >= 4 {
      NarrowLayout(k, BigEndian(s[..4]));
    }
    hide BigEndian, TakeWord, Narrow;
  }

  /** Any eight bytes are a hyper. */
  lemma DecodedHyper(prog: Program, s: seq<byte>)
    ensures var r, u := Dec(prog, THyper, s), Dec(prog, TUHyper, s);
            && (r.Got? <==> |s| >= 8) && (u.Got? <==> |s| >= 8)
            && (|s| >= 8 ==>
                  && r.value.VInt? && -9223372036854775808 <= r.value.i <= 9223372036854775807
                  && (r.value.i - BigEndian(s[..8])) % 18446744073709551616 == 0 && r.rest == s[8..]
                  && u == Got(VInt(BigEndian(s[..8])), s[8..]))
  {
    TakenHyper(s);
    DecodedFits(prog, THyper, s);
    hide BigEndian, DecHyper;
  }

  /** Anything but zero is TRUE. */
  lemma DecodedBool(prog: Program, s: seq<byte>)
    ensures Dec(prog, TBool, s) == if |s| < 4 then Fail else Got(VBool(BigEndian(s[..4]) != 0), s[4..])
  {
    TakenWord(s);
    hide BigEndian, TakeWord;
  }

  /** The bytes there are; what the padding holds does not matter. */
  lemma DecodedOpaque(prog: Program, n: word, s: seq<byte>)
    ensures Dec(prog, TOpaque(n), s) ==
            if |s| < RoundUp(n) then Fail else Got(VBytes(s[..n]), s[RoundUp(n)..])
  {
    TakenPadded(n, s);
    hide TakePadded;
  }

  /** A count over the bound is refused, whatever follows it. */
  lemma DecodedBytes(prog: Program, max: word, s: seq<byte>)
    ensures Dec(prog, TBytes(max), s) ==
            if !Announced(s, max) then Fail
            else Got(VBytes(s[4..4 + BigEndian(s[..4])]), s[4 + RoundUp(BigEndian(s[..4]))..])
  {
    TakenWord(s);
    if |s| >= 4 {
      TakenCounted(BigEndian(s[..4]), s);
    }
    hide BigEndian, TakeWord, TakePadded, RoundUp;
  }

  /** A string is cut at its first NUL; a count of 2^32 - 1 leaves no room for one and is refused. */
  lemma DecodedString(prog: Program, max: word, s: seq<byte>)
    ensures var r := Dec(prog, TString(max), s);
            && (r.Got? <==> Announced(s, max) && BigEndian(s[..4]) != 4294967295)
            && (r.Got? ==> var c := BigEndian(s[..4]);
                           && r.value.VString? && r.value.str <= s[4..4 + c]
                           && (|r.value.str| < c ==> s[4 + |r.value.str|] == 0)
                           && r.rest == s[4 + RoundUp(c)..])
  {
    TakenWord(s);
    if |s| >= 4 {
      TakenCounted(BigEndian(s[..4]), s);
    }
    hide BigEndian, TakeWord, TakePadded, RoundUp;
  }

  /** A count over the bound, or of more memory than there can be, is refused. */
  lemma DecodedArray(prog: Program, max: word, elsize: size, elem: Ty, s: seq<byte>)
    ensures var c := if |s| < 4 then 0 else BigEndian(s[..4]);
            Dec(prog, TArray(max, elsize, elem), s) ==
            if |s| < 4 || c > max || c * elsize > 4294967295 then Fail
            else AsSeq(DecMany(prog, elem, c, s[4..]))
  {
    TakenWord(s);
    if |s| >= 4 {
      ArrayBound(BigEndian(s[..4]), elsize);
    }
    hide BigEndian, TakeWord, DecMany, AsSeq;
  }

  /** A discriminant, then what its arm decodes to; refused when it has no arm. */
  lemma DecodedUnion(prog: Program, arms: seq<Arm>, dflt: Option<Ty>, s: seq<byte>)
    ensures var r := Dec(prog, TUnion(arms, dflt), s);
            if |s| < 4 then r == Fail
            else exists d :: IntFits(Int, d) && (d - BigEndian(s[..4])) % 4294967296 == 0
                             && r == DecodedArm(prog, FindArm(arms, dflt, d), d, s[4..])
  {
    TakenWord(s);
    hide BigEndian, TakeWord, FindArm, Narrow;
    if |s| >= 4 {
      NarrowLayout(Int, BigEndian(s[..4]));
    }
  }

  /** Zero is no object; anything else announces one. */
  lemma DecodedPointer(prog: Program, t: nat, s: seq<byte>)
    ensures var r := Dec(prog, TPointer(t), s);
            if |s| < 4 then r == Fail
            else if BigEndian(s[..4]) == 0 then r == Got(VPtr(None), s[4..])
            else if t >= |prog| then r == Fail
            else
              var a := Dec(prog, prog[t], s[4..]);
              r == if a.Fail? then Fail else Got(VPtr(Some(a.value)), a.rest)
  {
    TakenWord(s);
    hide BigEndian, TakeWord;
  }

  lemma NarrowLayout(k: Kind, w: word)
    ensures IntFits(k, Narrow(k, w)) && (Narrow(k, w) - w) % Modulus(k) == 0
  {
  }

  lemma TakenPadded(n: nat, s: seq<byte>)
    ensures TakePadded(n, s) == if |s| >= RoundUp(n) then Got(s[..n], s[RoundUp(n)..]) else Fail
  {
    assert n + Pad(n) == RoundUp(n);
  }

  lemma TakenCounted(c: nat, s: seq<byte>)
    requires |s| >= 4
    ensures TakePadded(c, s[4..]) ==
            if |s| >= 4 + RoundUp(c) then Got(s[4..4 + c], s[4 + RoundUp(c)..]) else Fail
  {
    TakenPadded(c, s[4..]);
    assert |s| >= 4 + c ==> s[4..][..c] == s[4..4 + c];
    assert |s| >= 4 + RoundUp(c) ==> s[4..][RoundUp(c)..] == s[4 + RoundUp(c)..];
  }

  lemma TakenHyper(s: seq<byte>)
    ensures DecHyper(s, true).Got? == DecHyper(s, false).Got? == (|s| >= 8)
    ensures |s| >= 8 ==>
      && DecHyper(s, false) == Got(VInt(BigEndian(s[..8])), s[8..])
      && DecHyper(s, true).rest == s[8..] && DecHyper(s, true).value.VInt?
      && (DecHyper(s, true).value.i - BigEndian(s[..8])) % 18446744073709551616 == 0
  {
    TakenWord(s);
    if |s| >= 4 {
      TakenWord(s[4..]);
      if |s| >= 8 {
        var h, l := s[..4], s[4..][..4];
        assert s[..8] == h + l && s[4..][4..] == s[8..];
        BigEndianJoin(h, l);
        hide BigEndian, TakeWord;
        var i := Signed(BigEndian(h));
        assert i == BigEndian(h) || i == BigEndian(h) - 0x1_0000_0000;
      }
    }
  }

  /** The arm that was chosen, decoded behind its discriminant. */
  function DecodedArm(prog: Program, t: Option<Ty>, d: int, s: seq<byte>): Parsed<Val> {
    if t.None? then Fail
    else
      var a := Dec(prog, t.value, s);
      if a.Fail? then Fail else Got(VUnion(d, a.value), a.rest)
  }

  lemma TakenWord(s: seq<byte>)
    ensures TakeWord(s) == if |s| < 4 then Fail else Got(BigEndian(s[..4]), s[4..])
  {
    if |s| >= 4 {
      NetIsBigEndian(0, s[..4]);
    }
  }
}
