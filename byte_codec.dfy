/**
 * Bytes, little-endian integers and ASCII text: the primitive encodings that the
 * SIGPROC header codec is built from (Python's `struct.pack("i", ...)` with
 * little-endian byte order, and `str.encode()` on ASCII names).
 */
module ByteCodec {

  type byte = b: int | 0 <= b < 256

  function Pow256(n: nat): (r: nat)
    ensures r > 0
  {
    if n == 0 then 1 else 256 * Pow256(n - 1)
  }

  /** The n least significant bytes of u, least significant first. */
  function LeBytes(u: nat, n: nat): (bs: seq<byte>)
    ensures |bs| == n
  {
    if n == 0 then [] else [u % 256] + LeBytes(u / 256, n - 1)
  }

  /** The unsigned number whose little-endian representation is bs. */
  function LeValue(bs: seq<byte>): nat {
    if bs == [] then 0 else bs[0] + 256 * LeValue(bs[1..])
  }

  lemma {:induction false} LeValueBound(bs: seq<byte>)
    ensures LeValue(bs) < Pow256(|bs|)
  {
    if bs != [] {
      LeValueBound(bs[1..]);
    }
  }

  /** Division by a*b splits into division by a, then by b. */
  lemma {:induction false} ModMul(x: nat, a: nat, b: nat)
    requires a > 0 && b > 0
    ensures x % (a * b) == x % a + a * ((x / a) % b)
    ensures x / (a * b) == (x / a) / b
  {
    var q, r := x / a, x % a;
    var q1, r1 := q / b, q % b;
    assert x == a * q + r;
    assert q == b * q1 + r1;
    assert a * q == (a * b) * q1 + a * r1 by {
      Distribute(a, b * q1, r1);
      assert a * (b * q1) == (a * b) * q1;
    }
    MulBelow(a, r1, b);
    DivModUnique(x, a * b, q1, a * r1 + r);
  }

  lemma {:induction false} Distribute(a: int, y: int, z: int)
    ensures a * (y + z) == a * y + a * z
  {
  }

  /** `i * n` built up by repeated addition: the position of the i-th of a run of n-wide pieces. */
  function Pos(i: nat, n: nat): nat {
    if i == 0 then 0 else Pos(i - 1, n) + n
  }

  lemma {:induction false} PosIsProduct(i: nat, n: nat)
    ensures Pos(i, n) == i * n
  {
    if i > 0 {
      PosIsProduct(i - 1, n);
      Distribute(n, i - 1, 1);
    }
  }

  /** A multiple of a by something below b leaves room for a remainder below a. */
  lemma {:induction false} MulBelow(a: nat, r1: nat, b: nat)
    requires r1 < b
    ensures a * r1 + a <= a * b
  {
    Distribute(a, r1, b - r1);
    MulAtLeast(a, b - r1);
  }

  lemma {:induction false} DivModUnique(x: int, m: int, k: int, s: int)
    requires m > 0 && x == m * k + s && 0 <= s < m
    ensures x % m == s && x / m == k
  {
    var k', s' := x / m, x % m;
    assert m * k' + s' == m * k + s;
    if k' < k {
      assert m * (k - k') == s' - s;
      MulAtLeast(m, k - k');
    } else if k' > k {
      assert m * (k' - k) == s - s';
      MulAtLeast(m, k' - k);
    }
  }

  lemma {:induction false} MulAtLeast(m: nat, d: int)
    requires d >= 1
    ensures m * d >= m
    decreases d
  {
    if d > 1 {
      MulAtLeast(m, d - 1);
      assert m * d == m * (d - 1) + m;
    }
  }

  /** Reading back n written bytes yields u modulo 256^n. */
  lemma {:induction false} LeRoundTrip(u: nat, n: nat)
    ensures LeValue(LeBytes(u, n)) == u % Pow256(n)
  {
    if n > 0 {
      var bs := LeBytes(u, n);
      assert bs[1..] == LeBytes(u / 256, n - 1);
      LeRoundTrip(u / 256, n - 1);
      ModMul(u, 256, Pow256(n - 1));
    }
  }

  /** Writing back the value of bs reproduces bs. */
  lemma {:induction false} LeBytesOfValue(bs: seq<byte>)
    ensures LeBytes(LeValue(bs), |bs|) == bs
  {
    if bs != [] {
      var u := LeValue(bs);
      DivModUnique(u, 256, LeValue(bs[1..]), bs[0]);
      LeBytesOfValue(bs[1..]);
    }
  }

  const TwoTo31: int := 0x8000_0000
  const TwoTo32: int := 0x1_0000_0000

  /** The range of a C `int`, which `struct.pack("i", ...)` accepts. */
  predicate InInt32(x: int) {
    -TwoTo31 <= x < TwoTo31
  }

  /** `struct.pack("i", x)`: two's complement, little-endian, four bytes. */
  function PackInt32(x: int): (bs: seq<byte>)
    requires InInt32(x)
    ensures |bs| == 4
  {
    LeBytes(if x < 0 then x + TwoTo32 else x, 4)
  }

  /** `struct.unpack("i", bs)[0]`. */
  function UnpackInt32(bs: seq<byte>): (x: int)
    requires |bs| == 4
    ensures InInt32(x)
  {
    LeValueBound(bs);
    assert Pow256(4) == TwoTo32;
    var u := LeValue(bs);
    if u >= TwoTo31 then u - TwoTo32 else u
  }

  lemma {:induction false} Int32RoundTrip(x: int)
    requires InInt32(x)
    ensures UnpackInt32(PackInt32(x)) == x
  {
    assert Pow256(4) == TwoTo32;
    var u := if x < 0 then x + TwoTo32 else x;
    LeRoundTrip(u, 4);
  }

  lemma {:induction false} Int32BytesRoundTrip(bs: seq<byte>)
    requires |bs| == 4
    ensures PackInt32(UnpackInt32(bs)) == bs
  {
    assert Pow256(4) == TwoTo32;
    LeValueBound(bs);
    LeBytesOfValue(bs);
  }

  predicate IsAscii(s: string) {
    forall c :: c in s ==> c as int < 128
  }

  /** `s.encode()` for an ASCII string: one byte per character (only ASCII strings are encoded). */
  function Ascii(s: string): (bs: seq<byte>)
    ensures |bs| == |s|
  {
    seq(|s|, i requires 0 <= i < |s| => (s[i] as int) % 256)
  }

  /** An ASCII string encodes to its character codes. */
  lemma {:induction false} AsciiCodes(s: string)
    requires IsAscii(s)
    ensures forall i :: 0 <= i < |s| ==> Ascii(s)[i] == s[i] as int
  {
    forall i | 0 <= i < |s| ensures Ascii(s)[i] == s[i] as int {
      assert s[i] in s;
    }
  }

  lemma {:induction false} AsciiInjective(s: string, t: string)
    requires IsAscii(s) && IsAscii(t) && Ascii(s) == Ascii(t)
    ensures s == t
  {
    assert |s| == |t|;
    forall i | 0 <= i < |s| ensures s[i] == t[i] {
      assert Ascii(s)[i] == Ascii(t)[i];
      assert s[i] in s && t[i] in t;
    }
  }
}
