/** Variable-length integers (CryptoNight/varint.h): seven bits a byte, low group first,
    high bit set on every byte but the last. */
module Varint {
  import opened Bytes

  /** How the reading loop ended. The C++ function reports `Done` and `Truncated` alike
      (the number of bytes read), `Overflow` as -1 and `NonCanonical` as -2. */
  datatype Status = Done | Truncated | Overflow | NonCanonical

  /** `consumed` counts the bytes taken from the input, the offending one included. */
  datatype Reading = Reading(status: Status, consumed: nat, value: nat) {
    function Code(): int {
      match status
      case Done => consumed
      case Truncated => consumed
      case Overflow => -1
      case NonCanonical => -2
    }
  }

  function Encode(v: nat): (s: seq<Byte>)
    ensures |s| >= 1
  {
    if v < 128 then [v] else [v % 128 + 128] + Encode(v / 128)
  }

  /** What the loop reads from `s` once `shift` bits have been taken, for a type of `bits` bits. */
  function Read(s: seq<Byte>, shift: nat, bits: nat): (r: Reading)
    requires shift < bits
    ensures r.consumed <= |s|
    decreases |s|
  {
    if s == [] then Reading(Truncated, 0, 0)
    else if shift + 7 >= bits && s[0] >= Pow2(bits - shift) then Reading(Overflow, 1, 0)
    else if s[0] == 0 && shift != 0 then Reading(NonCanonical, 1, 0)
    else if s[0] < 128 then Reading(Done, 1, s[0])
    else
      LastGroupEnds(s[0], shift, bits);
      var r := Read(s[1..], shift + 7, bits);
      Reading(r.status, 1 + r.consumed, s[0] - 128 + 128 * r.value)
  }

  lemma LastGroupEnds(b: Byte, shift: nat, bits: nat)
    requires shift < bits && b >= 128
    requires !(shift + 7 >= bits && b >= Pow2(bits - shift))
    ensures shift + 7 < bits
  {
    if shift + 7 >= bits {
      Pow2Monotone(bits - shift, 7);
    }
  }

  /** The value read always fits the bits that were left, so no shift drops a bit. */
  lemma {:induction false} ReadFits(s: seq<Byte>, shift: nat, bits: nat)
    requires shift < bits
    ensures Read(s, shift, bits).value < Pow2(bits - shift)
    decreases |s|
  {
    if s != [] && s[0] >= 128 && !(shift + 7 >= bits && s[0] >= Pow2(bits - shift)) {
      LastGroupEnds(s[0], shift, bits);
      ReadFits(s[1..], shift + 7, bits);
      Pow2Adds(7, bits - shift - 7);
      assert Pow2(7) == 128;
    } else if s != [] && shift + 7 < bits {
      Pow2Monotone(7, bits - shift);
      assert Pow2(7) == 128;
    }
  }

  lemma {:induction false} ReadInvertsEncodeFrom(v: nat, tail: seq<Byte>, shift: nat, bits: nat)
    requires shift < bits && v < Pow2(bits - shift)
    requires shift == 0 || v > 0
    ensures Read(Encode(v) + tail, shift, bits) == Reading(Done, |Encode(v)|, v)
    decreases v
  {
    if v >= 128 {
      assert Pow2(7) == 128;
      if shift + 7 >= bits {
        Pow2Monotone(bits - shift, 7);
      }
      Pow2Adds(7, bits - shift - 7);
      ReadInvertsEncodeFrom(v / 128, tail, shift + 7, bits);
      assert (Encode(v) + tail)[1..] == Encode(v / 128) + tail;
    }
  }

  /** Reading what was written, with anything after it, gives the number back and stops at its end. */
  lemma ReadInvertsEncode(v: nat, tail: seq<Byte>, bits: nat)
    requires bits > 0 && v < Pow2(bits)
    ensures Read(Encode(v) + tail, 0, bits) == Reading(Done, |Encode(v)|, v)
  {
    ReadInvertsEncodeFrom(v, tail, 0, bits);
  }

  lemma {:induction false} DoneIsEncodeFrom(s: seq<Byte>, shift: nat, bits: nat)
    requires shift < bits
    requires Read(s, shift, bits).status.Done?
    ensures s[..Read(s, shift, bits).consumed] == Encode(Read(s, shift, bits).value)
    ensures shift > 0 ==> Read(s, shift, bits).value > 0
    decreases |s|
  {
    if s[0] >= 128 {
      LastGroupEnds(s[0], shift, bits);
      var r := Read(s[1..], shift + 7, bits);
      DoneIsEncodeFrom(s[1..], shift + 7, bits);
      assert s[..1 + r.consumed] == [s[0]] + s[1..][..r.consumed];
    }
  }

  /** A reading ends properly on exactly the canonical encodings: `Encode` and `Read` are
      inverse bijections between the numbers of `bits` bits and the strings read to their end. */
  lemma ReadsExactlyTheEncodings(s: seq<Byte>, n: nat, v: nat, bits: nat)
    requires bits > 0
    ensures Read(s, 0, bits) == Reading(Done, n, v) <==>
            n <= |s| && v < Pow2(bits) && s[..n] == Encode(v)
  {
    hide Read, Encode, Pow2;
    if Read(s, 0, bits) == Reading(Done, n, v) {
      ReadFits(s, 0, bits);
      DoneIsEncodeFrom(s, 0, bits);
    }
    if n <= |s| && v < Pow2(bits) && s[..n] == Encode(v) {
      ReadInvertsEncode(v, s[n..], bits);
      assert s == s[..n] + s[n..];
    }
  }

  /** At most ceil(bits/7) bytes are taken, so an input that long is never run off. */
  lemma {:induction false} ReadIsBounded(s: seq<Byte>, shift: nat, bits: nat)
    requires shift < bits
    ensures 7 * Read(s, shift, bits).consumed < bits - shift + 7
    ensures 7 * |s| >= bits - shift ==> !Read(s, shift, bits).status.Truncated?
    decreases |s|
  {
    if s != [] && s[0] >= 128 && !(shift + 7 >= bits && s[0] >= Pow2(bits - shift)) {
      LastGroupEnds(s[0], shift, bits);
      ReadIsBounded(s[1..], shift + 7, bits);
    }
  }

  lemma {:induction false} EncodeLength(v: nat, bits: nat)
    requires v < Pow2(bits)
    ensures 7 * |Encode(v)| < bits + 7 || |Encode(v)| == 1
    ensures forall k: nat :: v >= Pow2(7 * k) ==> |Encode(v)| > k
    decreases v
  {
    assert Pow2(7) == 128;
    if v >= 128 {
      if bits < 7 { Pow2Monotone(bits, 7); }
      Pow2Adds(7, bits - 7);
      EncodeLength(v / 128, bits - 7);
      forall k: nat | v >= Pow2(7 * k) ensures |Encode(v)| > k {
        if k > 0 {
          Pow2Adds(7, 7 * (k - 1));
          assert v / 128 >= Pow2(7 * (k - 1));
        }
      }
    } else {
      forall k: nat | v >= Pow2(7 * k) ensures k == 0 {
        if k > 0 { Pow2Monotone(7, 7 * k); }
      }
    }
  }

  /** tools::write_varint: the loop that emits a group while a further one is due. */
  method WriteVarint(v: nat) returns (out: seq<Byte>)
    ensures out == Encode(v)
  {
    var i := v;
    out := [];
    while i >= 0x80
      invariant out + Encode(i) == Encode(v)
      decreases i
    {
      var low := i % 128 + 0x80;
      assert Encode(i) == [low] + Encode(i / 128);
      out := out + [low];
      i := i / 128;
    }
    out := out + [i];
  }

  /** The loop's invariant: `rest` is still to come, after `taken` bytes worth `value`. */
  ghost predicate Remaining(goal: Reading, rest: Reading, taken: nat, value: nat, scale: nat) {
    goal == Reading(rest.status, taken + rest.consumed, value + rest.value * scale)
  }

  lemma AllRemains(goal: Reading)
    ensures Remaining(goal, goal, 0, 0, 1)
  {}

  lemma LoopEnds(goal: Reading, rest: Reading, taken: nat, value: nat, scale: nat)
    requires Remaining(goal, rest, taken, value, scale)
    ensures goal == Reading(rest.status, taken + rest.consumed, value + rest.value * scale)
    ensures rest.value == 0 ==> goal.value == value
  {}

  lemma GroupTaken(goal: Reading, rest: Reading, taken: nat, value: nat, scale: nat, byte: Byte)
    requires byte >= 128
    requires Remaining(goal, Reading(rest.status, 1 + rest.consumed, byte - 128 + 128 * rest.value),
                       taken, value, scale)
    ensures Remaining(goal, rest, taken + 1, value + byte % 128 * scale, scale * 128)
  {
    assert byte % 128 == byte - 128;
    assert (byte - 128 + 128 * rest.value) * scale == (byte - 128) * scale + rest.value * (scale * 128);
  }

  /** tools::read_varint for an unsigned type of `bits` bits: returns the C++ code, the
      value left in the out-argument and how far the iterator moved. */
  method ReadVarint(s: seq<Byte>, bits: nat) returns (code: int, value: nat, taken: nat)
    requires bits > 0
    ensures code == Read(s, 0, bits).Code()
    ensures value == Read(s, 0, bits).value && taken == Read(s, 0, bits).consumed
    ensures value < Pow2(bits)
  {
    hide Remaining, Pow2;
    ReadFits(s, 0, bits);
    ghost var goal := Read(s, 0, bits);
    AllRemains(goal);
    value, taken := 0, 0;
    var shift: nat, scale: nat := 0, 1;  // scale is the weight of the bit at `shift`
    assert s[0..] == s;
    while true
      invariant shift < bits && taken <= |s|
      invariant Remaining(goal, Read(s[taken..], shift, bits), taken, value, scale)
      decreases |s| - taken
    {
      ghost var rest := Read(s[taken..], shift, bits);
      if taken == |s| {
        LoopEnds(goal, rest, taken, value, scale);
        return taken, value, taken;
      }
      var byte := s[taken];
      assert s[taken..][0] == byte && s[taken..][1..] == s[taken + 1..];
      taken := taken + 1;
      if shift + 7 >= bits && byte >= Pow2(bits - shift) {
        LoopEnds(goal, rest, taken - 1, value, scale);
        return -1, value, taken;
      }
      if byte == 0 && shift != 0 {
        LoopEnds(goal, rest, taken - 1, value, scale);
        return -2, value, taken;
      }
      if byte < 128 {
        LoopEnds(goal, rest, taken - 1, value, scale);
        return taken, value + byte * scale, taken;
      }
      LastGroupEnds(byte, shift, bits);
      GroupTaken(goal, Read(s[taken..], shift + 7, bits), taken - 1, value, scale, byte);
      value := value + byte % 128 * scale;
      shift, scale := shift + 7, scale * 128;
    }
  }
}
