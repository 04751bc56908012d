/** Fixed-width positional numbers, most significant digit first, in the two bases Base58 works in. */
module Positional {

  type Base = b: nat | b == 58 || b == 256 witness 58

  function Times(base: Base, x: nat): nat { if base == 58 then 58 * x else 256 * x }
  function Quot(base: Base, x: nat): nat { if base == 58 then x / 58 else x / 256 }
  function Rem(base: Base, x: nat): (r: nat)
    ensures r < base
  {
    if base == 58 then x % 58 else x % 256
  }

  function Pow(base: Base, k: nat): (p: nat)
    ensures p > 0
  {
    if k == 0 then 1 else Times(base, Pow(base, k - 1))
  }

  predicate Digits(base: Base, ds: seq<nat>) {
    forall i :: 0 <= i < |ds| ==> ds[i] < base
  }

  function ToDigits(base: Base, v: nat, width: nat): (ds: seq<nat>)
    ensures |ds| == width && Digits(base, ds)
  {
    if width == 0 then [] else ToDigits(base, Quot(base, v), width - 1) + [Rem(base, v)]
  }

  function FromDigits(base: Base, ds: seq<nat>): nat {
    if ds == [] then 0 else Times(base, FromDigits(base, ds[..|ds| - 1])) + ds[|ds| - 1]
  }

  lemma {:induction false} FromDigitsBound(base: Base, ds: seq<nat>)
    requires Digits(base, ds)
    ensures FromDigits(base, ds) < Pow(base, |ds|)
  {
    if ds != [] {
      FromDigitsBound(base, ds[..|ds| - 1]);
    }
  }

  /** Digits, put together and taken apart again, are unchanged: the representation is unique. */
  lemma {:induction false} ToDigitsInvertsFromDigits(base: Base, ds: seq<nat>)
    requires Digits(base, ds)
    ensures ToDigits(base, FromDigits(base, ds), |ds|) == ds
  {
    if ds != [] {
      var front, last := ds[..|ds| - 1], ds[|ds| - 1];
      ToDigitsInvertsFromDigits(base, front);
      assert front + [last] == ds;
    }
  }

  /** A number that fits the width is recovered from its digits. */
  lemma {:induction false} FromDigitsInvertsToDigits(base: Base, v: nat, width: nat)
    requires v < Pow(base, width)
    ensures FromDigits(base, ToDigits(base, v, width)) == v
  {
    if width > 0 {
      FromDigitsInvertsToDigits(base, Quot(base, v), width - 1);
      var ds := ToDigits(base, v, width);
      assert ds[..width - 1] == ToDigits(base, Quot(base, v), width - 1);
    }
  }

  lemma TimesProduct(base: Base, d: nat, p: nat, n: nat)
    ensures Times(base, d * p + n) == d * Times(base, p) + Times(base, n)
  {
    if base == 58 {
      assert 58 * (d * p) == d * (58 * p);
    } else {
      assert 256 * (d * p) == d * (256 * p);
    }
  }

  /** What a digit put in front adds. */
  lemma {:induction false} FromDigitsCons(base: Base, d: nat, ds: seq<nat>)
    ensures FromDigits(base, [d] + ds) == d * Pow(base, |ds|) + FromDigits(base, ds)
  {
    hide Times;
    if ds == [] {
      assert [d] + ds == [d] && [d][..0] == [];
      FromOneDigit(base, d);
    } else {
      var front, last := ds[..|ds| - 1], ds[|ds| - 1];
      FromDigitsCons(base, d, front);
      assert ([d] + ds)[..|ds|] == [d] + front;
      TimesProduct(base, d, Pow(base, |front|), FromDigits(base, front));
    }
  }

  lemma FromOneDigit(base: Base, d: nat)
    ensures FromDigits(base, [d]) == d
  {
    assert [d][..0] == [];
    assert FromDigits(base, []) == 0;
  }

  /** A suffix is never worth more than the whole. */
  lemma {:induction false} SuffixBelow(base: Base, ds: seq<nat>, i: nat)
    requires i <= |ds|
    ensures FromDigits(base, ds[i..]) <= FromDigits(base, ds)
    decreases i
  {
    hide FromDigits;
    if i == 0 {
      assert ds[0..] == ds;
    } else {
      assert ds[i - 1..] == [ds[i - 1]] + ds[i..];
      FromDigitsCons(base, ds[i - 1], ds[i..]);
      SuffixBelow(base, ds, i - 1);
    }
  }
}
