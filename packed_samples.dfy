/**
 * Sub-byte samples: 1-, 2- or 4-bit values packed into bytes, lowest bits
 * first, and the mask-and-divide that `unpack` uses to take them apart
 * (dada_fildb/sigproc.py). Bitwise AND is defined bit by bit on naturals.
 */
module PackedSamples {
  import opened ByteCodec

  function Pow2(n: nat): (r: nat)
    ensures r > 0
  {
    if n == 0 then 1 else 2 * Pow2(n - 1)
  }

  lemma {:induction false} Pow2Add(a: nat, b: nat)
    ensures Pow2(a + b) == Pow2(a) * Pow2(b)
    decreases a
  {
    if a > 0 {
      Pow2Add(a - 1, b);
    }
  }

  /** `a & b` on non-negative integers. */
  function BitAnd(a: nat, b: nat): nat
    decreases a
  {
    if a == 0 || b == 0 then 0
    else 2 * BitAnd(a / 2, b / 2) + (if a % 2 == 1 && b % 2 == 1 then 1 else 0)
  }

  /** The lowest bit of a & b is the AND of the lowest bits; the others are the AND of the halves. */
  lemma {:induction false} BitAndStep(a: nat, b: nat)
    ensures BitAnd(a, b) == 2 * BitAnd(a / 2, b / 2) + (if a % 2 == 1 && b % 2 == 1 then 1 else 0)
  {
    if a == 0 || b == 0 {
      assert BitAnd(a / 2, b / 2) == 0;
    }
  }

  /** ANDing with n low one-bits keeps the value modulo 2^n. */
  lemma {:induction false} BitAndLowOnes(d: nat, n: nat)
    ensures BitAnd(d, Pow2(n) - 1) == d % Pow2(n)
    decreases n
  {
    if n > 0 {
      BitAndStep(d, Pow2(n) - 1);
      assert (Pow2(n) - 1) / 2 == Pow2(n - 1) - 1 && (Pow2(n) - 1) % 2 == 1;
      BitAndLowOnes(d / 2, n - 1);
      ModMul(d, 2, Pow2(n - 1));
    }
  }

  /** n one-bits starting at bit s: 2^s * (2^n - 1). */
  function FieldMask(s: nat, n: nat): nat {
    MulNat(Pow2(s), Pow2(n) - 1)
  }

  function MulNat(a: nat, b: nat): (r: nat)
    ensures r == a * b
  {
    a * b
  }

  /** `2**(nbits*i) * (2**nbits - 1)`: nbits one-bits starting at bit nbits*i. */
  function Mask(nbits: nat, i: nat): nat {
    FieldMask(Pos(i, nbits), nbits)
  }

  /** `x >> s`, one halving per bit. */
  function Shr(x: nat, s: nat): nat {
    if s == 0 then x else Shr(x / 2, s - 1)
  }

  /** Shifting right by s bits divides by 2^s. */
  lemma {:induction false} ShrIsDiv(x: nat, s: nat)
    ensures Shr(x, s) == x / Pow2(s)
  {
    if s > 0 {
      ShrIsDiv(x / 2, s - 1);
      ModMul(x, 2, Pow2(s - 1));
    }
  }

  /** Bits s to s + n - 1 of d, as a number. */
  function Bits(d: nat, s: nat, n: nat): nat {
    Shr(d, s) % Pow2(n)
  }

  /** ANDing with n one-bits from bit s keeps exactly bits s to s + n - 1 of d, in place. */
  lemma {:induction false} BitAndField(d: nat, s: nat, n: nat)
    ensures BitAnd(d, FieldMask(s, n)) == Bits(d, s, n) * Pow2(s)
    decreases s
  {
    if s == 0 {
      BitAndLowOnes(d, n);
    } else {
      var p := Pow2(s - 1);
      var m := FieldMask(s - 1, n);
      assert FieldMask(s, n) == 2 * m;
      BitAndStep(d, 2 * m);
      assert (2 * m) / 2 == m && (2 * m) % 2 == 0;
      BitAndField(d / 2, s - 1, n);
      var x := Bits(d / 2, s - 1, n);
      assert Bits(d, s, n) == x;
      Twice(x, p);
    }
  }

  lemma {:induction false} Twice(x: nat, p: nat)
    ensures 2 * (x * p) == x * (2 * p)
  {
  }

  /** The sample widths `unpack` splits bytes into. */
  predicate SubByte(nbits: nat) {
    nbits == 1 || nbits == 2 || nbits == 4
  }

  /** The packing factor `fac = 8 / nbits`: samples per byte, for each of the three widths. */
  function Fac(nbits: nat): nat
    requires SubByte(nbits)
  {
    if nbits == 1 then 8 else if nbits == 2 then 4 else 2
  }

  /** fac samples of nbits bits fill a byte exactly. */
  lemma {:induction false} FacFillsByte(nbits: nat)
    requires SubByte(nbits)
    ensures Pos(Fac(nbits), nbits) == 8 && Fac(nbits) == 8 / nbits
  {
    PosIsProduct(Fac(nbits), nbits);
  }

  /** `(d & mask) / 2**(i*nbits)`: sample i of packed byte d. */
  function Extract(d: byte, nbits: nat, i: nat): nat
    requires SubByte(nbits) && i < Fac(nbits)
  {
    Shr(BitAnd(d, Mask(nbits, i)), Pos(i, nbits))
  }

  /** Sample i of d is the nbits-wide field of d starting at bit i*nbits. */
  lemma {:induction false} ExtractField(d: byte, nbits: nat, i: nat)
    requires SubByte(nbits) && i < Fac(nbits)
    ensures Extract(d, nbits, i) == Bits(d, Pos(i, nbits), nbits)
  {
    var s := Pos(i, nbits);
    BitAndField(d, s, nbits);
    ShrIsDiv(Bits(d, s, nbits) * Pow2(s), s);
    MulDiv(Bits(d, s, nbits), Pow2(s));
  }

  lemma {:induction false} MulDiv(f: nat, p: nat)
    requires p > 0
    ensures (f * p) / p == f
  {
    DivModUnique(f * p, p, f, 0);
  }

  /** Every unpacked sample is below 2^nbits. */
  lemma {:induction false} ExtractBound(d: byte, nbits: nat, i: nat)
    requires SubByte(nbits) && i < Fac(nbits)
    ensures Extract(d, nbits, i) < Pow2(nbits)
  {
    ExtractField(d, nbits, i);
  }

  /** The sum of samples 0 to j - 1 of d, each weighted by 2^(i*nbits). */
  function Rebuild(d: byte, nbits: nat, j: nat): nat
    requires SubByte(nbits) && j <= Fac(nbits)
  {
    if j == 0 then 0 else Rebuild(d, nbits, j - 1) + MulNat(Extract(d, nbits, j - 1), Pow2(Pos(j - 1, nbits)))
  }

  lemma {:induction false} RebuildLow(d: byte, nbits: nat, j: nat)
    requires SubByte(nbits) && j <= Fac(nbits)
    ensures Rebuild(d, nbits, j) == d % Pow2(Pos(j, nbits))
  {
    if j > 0 {
      RebuildLow(d, nbits, j - 1);
      ExtractField(d, nbits, j - 1);
      LowBitsStep(d, Pos(j - 1, nbits), nbits);
    }
  }

  /** The low s + n bits of d are its low s bits plus bits s to s + n - 1 in place. */
  lemma {:induction false} LowBitsStep(d: nat, s: nat, n: nat)
    ensures d % Pow2(s + n) == d % Pow2(s) + MulNat(Bits(d, s, n), Pow2(s))
  {
    Pow2Add(s, n);
    ModMul(d, Pow2(s), Pow2(n));
    ShrIsDiv(d, s);
  }

  /** The fac samples of a byte, weighted by their bit positions, add back up to the byte. */
  lemma {:induction false} RebuildByte(d: byte, nbits: nat)
    requires SubByte(nbits)
    ensures Rebuild(d, nbits, Fac(nbits)) == d
  {
    RebuildLow(d, nbits, Fac(nbits));
    FacFillsByte(nbits);
    ByteBound();
    assert d % Pow2(Pos(Fac(nbits), nbits)) == d % 256;
  }

  /** Eight bits hold 256 values. */
  lemma {:induction false} ByteBound()
    ensures Pow2(8) == 256
  {
    assert Pow2(4) == 16;
  }
}
