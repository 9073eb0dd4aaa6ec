/**
 * The XDR data language of section 4 of RFC 4506 as the filters implement it: which
 * types a filter can be built for, the values they take in memory, the bytes a value
 * is encoded as and the value that bytes are decoded to.
 */
module XdrData {
  import opened Bytes

  const UINT_MAX := 0xffff_ffff

  type size = x: int | 0 < x < 0x1_0000_0000 witness 1

  /** The value of a char pointer: its bytes up to the terminating NUL. */
  type cstring = s: seq<byte> | forall i :: 0 <= i < |s| ==> s[i] != 0

  /** short, u_short, int (and enum), u_int, long, u_long. */
  datatype Kind = Short | UShort | Int | UInt | Long | ULong

  datatype Ty =
    | TInt(kind: Kind)
    | THyper
    | TUHyper
    | TBool
    | TOpaque(len: word)
    | TBytes(max: word)
    | TString(max: word)
    | TArray(max: word, elsize: size, elem: Ty)
    | TVector(count: word, elem: Ty)
    | TStruct(fields: seq<Ty>)
    | TUnion(arms: seq<Arm>, dflt: Option<Ty>)
    | TPointer(target: nat)    // an optional object of a type named in the program

  datatype Arm = Arm(value: int, ty: Ty)

  datatype Val =
    | VInt(i: int)
    | VBool(b: bool)
    | VBytes(bytes: seq<byte>)
    | VString(str: cstring)
    | VSeq(vals: seq<Val>)
    | VUnion(disc: int, arm: Val)
    | VPtr(obj: Option<Val>)

  /** Named types, which may refer to one another through pointers. */
  type Program = seq<Ty>

  /** The range of a kind that fits one 32-bit word; a long outside it is refused. */
  predicate InRange(k: Kind, i: int) {
    match k
    case Short => -0x8000 <= i < 0x8000
    case UShort => 0 <= i < 0x1_0000
    case Int | Long => -0x8000_0000 <= i < 0x8000_0000
    case UInt | ULong => 0 <= i < 0x1_0000_0000
  }

  /** The C conversion of a word to a kind. */
  function Narrow(k: Kind, w: word): (i: int)
    ensures InRange(k, i)
  {
    match k
    case Short => (w + 0x8000) % 0x1_0000 - 0x8000
    case UShort => w % 0x1_0000
    case Int | Long => Signed(w)
    case UInt | ULong => w
  }

  function Word(i: int): (w: word) {
    i % 0x1_0000_0000
  }

  function Pad(n: nat): (p: nat)
    ensures p < 4
  {
    (4 - n % 4) % 4
  }

  function Zeros(n: nat): (z: seq<byte>)
    ensures |z| == n
  {
    seq(n, _ => 0)
  }

  function Padded(bs: seq<byte>): (s: seq<byte>)
    ensures |s| == |bs| + Pad(|bs|)
  {
    bs + Zeros(Pad(|bs|))
  }

  /** The bytes of a string that come before its first NUL. */
  function CString(bs: seq<byte>): (s: cstring)
    ensures s <= bs && (|s| < |bs| ==> bs[|s|] == 0)
    ensures (forall i :: 0 <= i < |bs| ==> bs[i] != 0) ==> s == bs
  {
    if bs == [] || bs[0] == 0 then [] else [bs[0]] + CString(bs[1..])
  }

  /** The first arm with the discriminant, else the default arm if there is one. */
  function FindArm(arms: seq<Arm>, dflt: Option<Ty>, d: int): (t: Option<Ty>)
    decreases arms
  {
    if arms == [] then dflt
    else if arms[0].value == d then Some(arms[0].ty)
    else FindArm(arms[1..], dflt, d)
  }

  // -- encoding ---------------------------------------------------------------

  function Join(a: Option<seq<byte>>, b: Option<seq<byte>>): Option<seq<byte>> {
    if a.Some? && b.Some? then Some(a.value + b.value) else None
  }

  /** The encoding of a value, or None where the filter returns FALSE. */
  function Enc(prog: Program, ty: Ty, v: Val): (r: Option<seq<byte>>)
    decreases v, 1
  {
    match (ty, v)
    case (TInt(k), VInt(i)) => if InRange(k, i) then Some(ToNet(Word(i))) else None
    case (THyper, VInt(i)) =>
      if -0x8000_0000_0000_0000 <= i < 0x8000_0000_0000_0000 then EncHyper(i) else None
    case (TUHyper, VInt(i)) =>
      if 0 <= i < 0x1_0000_0000_0000_0000 then EncHyper(i) else None
    case (TBool, VBool(b)) => Some(ToNet(if b then 1 else 0))
    case (TOpaque(n), VBytes(bs)) => if |bs| == n then Some(Padded(bs)) else None
    case (TBytes(max), VBytes(bs)) =>
      if |bs| <= max then Some(ToNet(|bs|) + Padded(bs)) else None
    case (TString(max), VString(s)) =>
      if |s| <= max && |s| < UINT_MAX then Some(ToNet(|s|) + Padded(s)) else None
    case (TArray(max, elsize, elem), VSeq(vs)) =>
      if |vs| <= max && |vs| <= UINT_MAX / elsize
      then Join(Some(ToNet(|vs|)), EncMany(prog, elem, vs)) else None
    case (TVector(n, elem), VSeq(vs)) => if |vs| == n then EncMany(prog, elem, vs) else None
    case (TStruct(tys), VSeq(vs)) => EncFields(prog, tys, vs)
    case (TUnion(arms, dflt), VUnion(d, w)) =>
      if !InRange(Int, d) then None
      else
        var t := FindArm(arms, dflt, d);
        if t.None? then None else Join(Some(ToNet(Word(d))), Enc(prog, t.value, w))
    case (TPointer(_), VPtr(None)) => Some(ToNet(0))
    case (TPointer(t), VPtr(Some(w))) =>
      if t < |prog| then Join(Some(ToNet(1)), Enc(prog, prog[t], w)) else None
    case _ => None
  }

  function EncHyper(i: int): Option<seq<byte>> {
    Some(ToNet(Word(i / 0x1_0000_0000)) + ToNet(Word(i)))
  }

  function EncMany(prog: Program, elem: Ty, vs: seq<Val>): (r: Option<seq<byte>>)
    decreases vs, 0
  {
    if vs == [] then Some([]) else Join(Enc(prog, elem, vs[0]), EncMany(prog, elem, vs[1..]))
  }

  function EncFields(prog: Program, tys: seq<Ty>, vs: seq<Val>): (r: Option<seq<byte>>)
    decreases vs, 0
  {
    if |tys| != |vs| then None
    else if vs == [] then Some([])
    else Join(Enc(prog, tys[0], vs[0]), EncFields(prog, tys[1..], vs[1..]))
  }

  // -- decoding ---------------------------------------------------------------

  datatype Parsed<+T> = Fail | Got(value: T, rest: seq<byte>)

  function TakeWord(s: seq<byte>): (r: Parsed<word>)
    ensures r.Got? ==> |r.rest| + 4 == |s|
  {
    if |s| < 4 then Fail else Got(FromNet(s[..4]), s[4..])
  }

  function TakePadded(n: nat, s: seq<byte>): (r: Parsed<seq<byte>>)
    ensures r.Got? ==> |r.rest| <= |s| && |r.value| == n
  {
    if |s| < n + Pad(n) then Fail else Got(s[..n], s[n + Pad(n)..])
  }

  /** What a filter decodes from the front of a stream. */
  function Dec(prog: Program, ty: Ty, s: seq<byte>): (r: Parsed<Val>)
    ensures r.Got? ==> |r.rest| <= |s|
    decreases |s|, ty, 0
  {
    match ty
    case TInt(k) =>
      var w := TakeWord(s);
      if w.Fail? then Fail else Got(VInt(Narrow(k, w.value)), w.rest)
    case THyper => DecHyper(s, true)
    case TUHyper => DecHyper(s, false)
    case TBool =>
      var w := TakeWord(s);
      if w.Fail? then Fail else Got(VBool(w.value != 0), w.rest)
    case TOpaque(n) => DecOpaque(n, s)
    case TBytes(max) =>
      var w := TakeWord(s);
      if w.Fail? || w.value > max then Fail else DecOpaque(w.value, w.rest)
    case TString(max) =>
      var w := TakeWord(s);
      if w.Fail? || w.value > max || w.value == UINT_MAX then Fail
      else
        var b := TakePadded(w.value, w.rest);
        if b.Fail? then Fail else Got(VString(CString(b.value)), b.rest)
    case TArray(max, elsize, elem) =>
      var w := TakeWord(s);
      if w.Fail? || w.value > max || w.value > UINT_MAX / elsize then Fail
      else AsSeq(DecMany(prog, elem, w.value, w.rest))
    case TVector(n, elem) => AsSeq(DecMany(prog, elem, n, s))
    case TStruct(tys) => AsSeq(DecFields(prog, tys, s))
    case TUnion(arms, dflt) =>
      var w := TakeWord(s);
      if w.Fail? then Fail
      else
        var d := Narrow(Int, w.value);
        var t := FindArm(arms, dflt, d);
        if t.None? then Fail
        else
          var a := Dec(prog, t.value, w.rest);
          if a.Fail? then Fail else Got(VUnion(d, a.value), a.rest)
    case TPointer(t) =>
      var w := TakeWord(s);
      if w.Fail? then Fail
      else if w.value == 0 then Got(VPtr(None), w.rest)
      else if t >= |prog| then Fail
      else
        var a := Dec(prog, prog[t], w.rest);
        if a.Fail? then Fail else Got(VPtr(Some(a.value)), a.rest)
  }

  function DecHyper(s: seq<byte>, signed: bool): (r: Parsed<Val>)
    ensures r.Got? ==> |r.rest| <= |s|
  {
    var hi := TakeWord(s);
    if hi.Fail? then Fail
    else
      var lo := TakeWord(hi.rest);
      if lo.Fail? then Fail
      else
        var h: int := if signed then Signed(hi.value) else hi.value;
        Got(VInt(h * 0x1_0000_0000 + lo.value), lo.rest)
  }

  function DecOpaque(n: nat, s: seq<byte>): (r: Parsed<Val>)
    ensures r.Got? ==> |r.rest| <= |s|
  {
    var b := TakePadded(n, s);
    if b.Fail? then Fail else Got(VBytes(b.value), b.rest)
  }

  function AsSeq(p: Parsed<seq<Val>>): (r: Parsed<Val>) {
    match p
    case Fail => Fail
    case Got(vs, rest) => Got(VSeq(vs), rest)
  }

  function Push(v: Val, p: Parsed<seq<Val>>): Parsed<seq<Val>> {
    match p
    case Fail => Fail
    case Got(vs, rest) => Got([v] + vs, rest)
  }

  function DecMany(prog: Program, elem: Ty, n: nat, s: seq<byte>): (r: Parsed<seq<Val>>)
    ensures r.Got? ==> |r.rest| <= |s| && |r.value| == n
    decreases |s|, elem, n + 1
  {
    if n == 0 then Got([], s)
    else
      var a := Dec(prog, elem, s);
      if a.Fail? then Fail else Push(a.value, DecMany(prog, elem, n - 1, a.rest))
  }

  function DecFields(prog: Program, tys: seq<Ty>, s: seq<byte>): (r: Parsed<seq<Val>>)
    ensures r.Got? ==> |r.rest| <= |s| && |r.value| == |tys|
    decreases |s|, tys, 0
  {
    if tys == [] then Got([], s)
    else
      var a := Dec(prog, tys[0], s);
      if a.Fail? then Fail else Push(a.value, DecFields(prog, tys[1..], a.rest))
  }
}
