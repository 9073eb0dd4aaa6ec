/** Bytes, 32-bit words in network order, and the option type shared by the other modules. */
module Bytes {

  datatype Option<+T> = None | Some(value: T)

  type byte = x: int | 0 <= x < 0x100
  type word = x: int | 0 <= x < 0x1_0000_0000
  type int32 = x: int | -0x8000_0000 <= x < 0x8000_0000

  /** The four bytes that htonl lays down for w. */
  function ToNet(w: word): (s: seq<byte>)
    ensures |s| == 4
  {
    [w / 0x100_0000, w / 0x1_0000 % 0x100, w / 0x100 % 0x100, w % 0x100]
  }

  /** The word that ntohl reads from four bytes. */
  function FromNet(s: seq<byte>): (w: word)
    requires |s| == 4
  {
    s[0] as int * 0x100_0000 + s[1] as int * 0x1_0000 + s[2] as int * 0x100 + s[3]
  }

  lemma FromNetOfToNet(w: word)
    ensures FromNet(ToNet(w)) == w
  {
    var a, b, c := w / 0x100, w / 0x1_0000, w / 0x100_0000;
    assert a / 0x100 == b && b / 0x100 == c;
  }

  lemma ToNetOfFromNet(s: seq<byte>)
    requires |s| == 4
    ensures ToNet(FromNet(s)) == s
  {
    var w := FromNet(s);
    var a: int := s[0] as int * 0x1_0000 + s[1] as int * 0x100 + s[2];
    var b: int := s[0] as int * 0x100 + s[1];
    assert w == a * 0x100 + s[3] && a == b * 0x100 + s[2];
    assert w / 0x100 == a && a / 0x100 == b;
    assert w / 0x1_0000 == b && w / 0x100_0000 == s[0];
  }

  /** Bytes read as a number, the most significant first. */
  function BigEndian(s: seq<byte>): (n: nat) {
    if s == [] then 0 else BigEndian(s[..|s| - 1]) * 0x100 + s[|s| - 1]
  }

  lemma BigEndianOfFour(s: seq<byte>)
    requires |s| == 4
    ensures BigEndian(s) == s[0] as int * 0x100_0000 + s[1] as int * 0x1_0000 + s[2] as int * 0x100 + s[3]
  {
    var a, b, c := s[..3], s[..2], s[..1];
    assert a[..2] == b && b[..1] == c && c[..0] == [];
    assert BigEndian(c) == s[0];
    assert BigEndian(b) == BigEndian(c) * 0x100 + s[1];
    assert BigEndian(a) == BigEndian(b) * 0x100 + s[2];
  }

  /** Network order is most significant byte first. */
  lemma NetIsBigEndian(w: word, s: seq<byte>)
    requires |s| == 4
    ensures BigEndian(ToNet(w)) == w && FromNet(s) == BigEndian(s)
  {
    BigEndianOfFour(s);
    BigEndianOfFour(ToNet(w));
    FromNetOfToNet(w);
  }

  /** The first byte in which they differ is smaller in the first. */
  ghost predicate Precedes(a: seq<byte>, b: seq<byte>) {
    exists k :: 0 <= k < |a| && k < |b| && a[..k] == b[..k] && a[k] < b[k]
  }

  /** Words compare as their bytes do, one after another. */
  lemma NetOrder(v: word, w: word)
    ensures v < w <==> Precedes(ToNet(v), ToNet(w))
  {
    FromNetOfToNet(v);
    FromNetOfToNet(w);
    var a, b := ToNet(v), ToNet(w);
    if v < w {
      var k := if a[0] != b[0] then 0 else if a[1] != b[1] then 1 else if a[2] != b[2] then 2 else 3;
      assert a[..k] == b[..k] && a[k] < b[k];
    }
    if Precedes(a, b) {
      var k :| 0 <= k < 4 && a[..k] == b[..k] && a[k] < b[k];
      assert forall i :: 0 <= i < k ==> a[..k][i] == a[i] && b[..k][i] == b[i];
    }
  }

  /** The C conversion of a 32-bit pattern to int32_t. */
  function Signed(w: word): (i: int32)
    ensures (i - w) % 0x1_0000_0000 == 0
  {
    if w < 0x8000_0000 then w else w - 0x1_0000_0000
  }

  lemma Resume<T>(done: seq<T>, s: seq<T>, i: nat, n: nat)
    requires i + n <= |s|
    ensures (done + s[..i]) + s[i..i + n] == done + s[..i + n]
    ensures s[i..][..n] == s[i..i + n] && s[i..][n..] == s[i + n..]
  {
  }
}
