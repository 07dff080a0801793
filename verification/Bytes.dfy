/** Bytes, exclusive-or, and little-endian numbers. */
module Bytes {
  import opened Sums

  type Byte = b: int | 0 <= b < 256

  /** Exclusive-or of the lowest k bits. */
  function XorBits(a: nat, b: nat, k: nat): (r: nat) {
    if k == 0 then 0 else (a + b) % 2 + 2 * XorBits(a / 2, b / 2, k - 1)
  }

  function Xor(a: Byte, b: Byte): (r: Byte) {
    XorRange(a, b, 8);
    XorBits(a, b, 8)
  }

  lemma {:induction false} XorRange(a: nat, b: nat, k: nat)
    ensures XorBits(a, b, k) < Pow2(k)
  {
    if k > 0 {
      XorRange(a / 2, b / 2, k - 1);
    }
  }

  lemma {:induction false} XorSymmetric(a: nat, b: nat, k: nat)
    ensures XorBits(a, b, k) == XorBits(b, a, k)
  {
    if k > 0 {
      XorSymmetric(a / 2, b / 2, k - 1);
    }
  }

  lemma {:induction false} XorBitsAssociative(a: nat, b: nat, c: nat, k: nat)
    ensures XorBits(XorBits(a, b, k), c, k) == XorBits(a, XorBits(b, c, k), k)
  {
    if k == 0 {
    } else {
      XorBitsAssociative(a / 2, b / 2, c / 2, k - 1);
      AssociativeStep(a, b, c, k);
    }
  }

  lemma AssociativeStep(a: nat, b: nat, c: nat, k: nat)
    requires k > 0
    requires XorBits(XorBits(a / 2, b / 2, k - 1), c / 2, k - 1) == XorBits(a / 2, XorBits(b / 2, c / 2, k - 1), k - 1)
    ensures XorBits(XorBits(a, b, k), c, k) == XorBits(a, XorBits(b, c, k), k)
  {
    hide XorBits;
    var x, y := XorBits(a, b, k), XorBits(b, c, k);
    XorStep(a, b, k);
    XorStep(b, c, k);
    XorStep(x, c, k);
    XorStep(a, y, k);
    ParityOfSum(x, c);
    ParityOfSum(a, y);
    ParityOfSum(a, b);
    ParityOfSum(b, c);
  }

  lemma XorStep(a: nat, b: nat, k: nat)
    requires k > 0
    ensures XorBits(a, b, k) == (a + b) % 2 + 2 * XorBits(a / 2, b / 2, k - 1)
    ensures XorBits(a, b, k) / 2 == XorBits(a / 2, b / 2, k - 1) && XorBits(a, b, k) % 2 == (a + b) % 2
  {
  }

  lemma ParityOfSum(a: nat, b: nat)
    ensures (a + b) % 2 == if a % 2 == b % 2 then 0 else 1
  {
  }

  lemma {:induction false} XorBitsSelf(a: nat, k: nat)
    ensures XorBits(a, a, k) == 0
  {
    if k > 0 {
      XorBitsSelf(a / 2, k - 1);
    }
  }

  lemma {:induction false} XorBitsZero(a: nat, k: nat)
    requires a < Pow2(k)
    ensures XorBits(a, 0, k) == a
  {
    if k > 0 {
      XorBitsZero(a / 2, k - 1);
    }
  }

  lemma XorCommutes(a: Byte, b: Byte)
    ensures Xor(a, b) == Xor(b, a)
  {
    XorSymmetric(a, b, 8);
  }

  lemma XorAssociative(a: Byte, b: Byte, c: Byte)
    ensures Xor(Xor(a, b), c) == Xor(a, Xor(b, c))
  {
    XorBitsAssociative(a, b, c, 8);
  }

  lemma XorZero(a: Byte)
    ensures Xor(a, 0) == a && Xor(a, a) == 0
  {
    XorBitsZero(a, 8);
    XorBitsSelf(a, 8);
  }

  lemma XorUndone(a: Byte, b: Byte)
    ensures Xor(Xor(a, b), b) == a
  {
    XorAssociative(a, b, b);
    XorZero(a);
    XorZero(b);
  }

  /** The number whose bytes, lowest first, these are. */
  function LittleEndian(bytes: seq<Byte>): (n: nat) {
    if bytes == [] then 0 else bytes[0] + 256 * LittleEndian(bytes[1..])
  }

  /** The lowest k bytes of n. */
  function ToBytes(n: nat, k: nat): (bytes: seq<Byte>)
    ensures |bytes| == k
  {
    if k == 0 then [] else [n % 256] + ToBytes(n / 256, k - 1)
  }

  function Pow256(k: nat): (r: nat)
    ensures r > 0
  {
    if k == 0 then 1 else 256 * Pow256(k - 1)
  }

  lemma {:induction false} BytesRoundTrip(n: nat, k: nat)
    requires n < Pow256(k)
    ensures LittleEndian(ToBytes(n, k)) == n
  {
    if k > 0 {
      BytesRoundTrip(n / 256, k - 1);
      assert ToBytes(n, k)[1..] == ToBytes(n / 256, k - 1);
    }
  }

  function XorAll(a: seq<Byte>, b: seq<Byte>): (r: seq<Byte>)
    requires |a| <= |b|
    ensures |r| == |a| && forall i :: 0 <= i < |a| ==> r[i] == Xor(a[i], b[i])
  {
    seq(|a|, i requires 0 <= i < |a| => Xor(a[i], b[i]))
  }

  lemma XorAllUndone(a: seq<Byte>, pad: seq<Byte>)
    requires |a| <= |pad|
    ensures XorAll(XorAll(a, pad), pad) == a
  {
    forall i | 0 <= i < |a| ensures Xor(Xor(a[i], pad[i]), pad[i]) == a[i] {
      XorUndone(a[i], pad[i]);
    }
  }
}
