/** Vocabulary shared by the wire-format modules: bytes as small integers, machine
    words as bounded integers, and the option type used for C++ `bool` parse results. */
module Bytes {
  const TWO_32: nat := 0x1_0000_0000
  const TWO_64: nat := 0x1_0000_0000_0000_0000

  type Byte = b: int | 0 <= b < 256
  type U32 = x: int | 0 <= x < TWO_32
  type U64 = x: int | 0 <= x < TWO_64

  /** Failure-compatible, so a sequence of parsing steps can be written with `:-`. */
  datatype Option<+T> = None | Some(value: T) {
    predicate IsFailure() {
      None?
    }

    function PropagateFailure<U>(): Option<U>
      requires None?
    {
      None
    }

    function Extract(): T
      requires Some?
    {
      value
    }
  }

  function Zeros(n: nat): (z: seq<Byte>)
    ensures |z| == n && forall i :: 0 <= i < n ==> z[i] == 0
  {
    seq(n, _ => 0)
  }

  /** A 32-bit word, highest byte first. */
  function Be32(x: nat): (s: seq<Byte>)
    requires x < TWO_32
    ensures |s| == 4
  {
    [x / 0x100_0000, x / 0x1_0000 % 256, x / 256 % 256, x % 256]
  }

  /** A 64-bit word, high half first. */
  function Be64(x: nat): (s: seq<Byte>)
    requires x < TWO_64
    ensures |s| == 8
  {
    Be32(x / TWO_32) + Be32(x % TWO_32)
  }

  lemma Cat3(a: seq<Byte>, b: seq<Byte>, c: seq<Byte>)
    ensures (a + b) + c == a + (b + c)
  {}

  lemma Cat4(a: seq<Byte>, b: seq<Byte>, c: seq<Byte>, d: seq<Byte>)
    ensures ((a + b) + c) + d == a + (b + (c + d)) == (a + (b + c)) + d
  {}

  lemma Cat6(a: seq<Byte>, b: seq<Byte>, c: seq<Byte>, d: seq<Byte>, e: seq<Byte>, f: seq<Byte>)
    ensures ((((a + b) + c) + d) + e) + f == a + (b + (c + (d + (e + f)))) == (a + (b + (c + (d + e)))) + f
  {
    Cat4(a, b, c, d);
    Cat4(b, c, d, e);
    Cat3(a, b + (c + d), e);
    Cat3(a, b + (c + (d + e)), f);
    Cat4(b, c, d + e, f);
    Cat3(d, e, f);
  }

  function Pow2(n: nat): (p: nat)
    ensures p > 0
  {
    if n == 0 then 1 else 2 * Pow2(n - 1)
  }

  lemma Pow2Adds(a: nat, b: nat)
    ensures Pow2(a + b) == Pow2(a) * Pow2(b)
  {
    if a > 0 {
      Pow2Adds(a - 1, b);
      assert Pow2(a + b) == 2 * (Pow2(a - 1) * Pow2(b));
    }
  }

  lemma Pow2Monotone(a: nat, b: nat)
    requires a <= b
    ensures Pow2(a) <= Pow2(b)
  {
    if a < b {
      Pow2Monotone(a, b - 1);
    }
  }
}
