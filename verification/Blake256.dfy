/** BLAKE-256 and its HMAC (CryptoNight/blake256.cpp) over an arbitrary compression function: buffering,
    bit counters with wrap-around, padding. Messages are whole bytes. */
module Blake256 {
  import opened Bytes

  type Chain = h: seq<U32> | |h| == 8 witness seq(8, _ => 0)

  const INITIAL: Chain := [0x6A09E667, 0xBB67AE85, 0x3C6EF372, 0xA54FF53A,
                             0x510E527F, 0x9B05688C, 0x1F83D9AB, 0x5BE0CD19]

  /** blake256_compress without its state: chain value, block, counter. A null counter is a zero one, since the
      counter only enters by exclusive or. */
  type Compression = (Chain, seq<Byte>, nat) -> Chain

  // ----- the definition (section 2.1.3 of the BLAKE submission)

  /** Bytes of padding before the length, less one. */
  function Gap(n: nat): (k: nat)
    ensures k < 64 && (n + k + 9) % 64 == 0
  {
    if n % 64 <= 55 then 55 - n % 64 else 119 - n % 64
  }

  /** A one bit, zeros, and the closing bit `pb`; `pa` where the two fall into one byte. */
  function Padding(n: nat, pa: Byte, pb: Byte): (p: seq<Byte>)
    ensures |p| == Gap(n) + 1
  {
    if Gap(n) == 0 then [pa] else [0x80] + Zeros(Gap(n) - 1) + [pb]
  }

  function Padded(m: seq<Byte>, pa: Byte, pb: Byte): (p: seq<Byte>)
    requires 8 * |m| < TWO_64
    ensures |p| % 64 == 0 && |p| > |m| && p[..|m|] == m
  {
    m + Padding(|m|, pa, pb) + Be64(8 * |m|)
  }

  /** The message bits up to the end of block i, or zero where block i has none. */
  function Count(n: nat, i: nat): nat {
    if 64 * i >= n then 0 else if 64 * i + 64 <= n then 512 * (i + 1) else 8 * n
  }

  function BlockAt(p: seq<Byte>, i: nat): seq<Byte>
    requires 64 * i + 64 <= |p|
  {
    p[64 * i..64 * i + 64]
  }

  /** The chain value after `i` blocks of the padded message `p` of `n` bytes. */
  function ChainAfter(f: Compression, p: seq<Byte>, n: nat, i: nat): Chain
    requires 64 * i <= |p|
  {
    if i == 0 then INITIAL else f(ChainAfter(f, p, n, i - 1), BlockAt(p, i - 1), Count(n, i - 1))
  }

  function Digest(h: Chain): (d: seq<Byte>)
    ensures |d| == 32
  {
    Be32(h[0]) + Be32(h[1]) + Be32(h[2]) + Be32(h[3]) + Be32(h[4]) + Be32(h[5]) + Be32(h[6]) + Be32(h[7])
  }

  function Blake(f: Compression, m: seq<Byte>, pa: Byte, pb: Byte): (d: seq<Byte>)
    requires 8 * |m| < TWO_64
    ensures |d| == 32
  {
    var p := Padded(m, pa, pb);
    Digest(ChainAfter(f, p, |m|, |p| / 64))
  }

  // ----- the state and its updates, as the code has them

  datatype Hash = Hash(h: Chain, t0: nat, t1: nat, nullt: bool, tail: seq<Byte>)

  const START: Hash := Hash(INITIAL, 0, 0, false, [])

  function Add512(t0: nat): nat { if t0 + 512 < TWO_32 then t0 + 512 else t0 + 512 - TWO_32 }

  /** One block: the counter ticks first, and its high word when the low one comes to zero. */
  function Absorb(f: Compression, s: Hash, block: seq<Byte>): Hash {
    var t0 := Add512(s.t0);
    var t1 := if t0 == 0 then (s.t1 + 1) % TWO_32 else s.t1;
    s.(h := f(s.h, block, if s.nullt then 0 else TWO_32 * t1 + t0), t0 := t0, t1 := t1)
  }

  function AbsorbAll(f: Compression, s: Hash, data: seq<Byte>, k: nat): Hash
    requires 64 * k <= |data|
  {
    if k == 0 then s else Absorb(f, AbsorbAll(f, s, data, k - 1), BlockAt(data, k - 1))
  }

  /** blake256_update: the buffered bytes are completed only if the part of the data beyond whole blocks
      fills their block; data without such a part empties the buffer. */
  function Update(f: Compression, s: Hash, data: seq<Byte>): Hash
    requires |s.tail| < 64
  {
    var fill := 64 - |s.tail|;
    if s.tail != [] && |data| % 64 >= fill then
      Direct(f, Absorb(f, s, s.tail + data[..fill]).(tail := []), data[fill..])
    else Direct(f, s, data)
  }

  function Direct(f: Compression, s: Hash, data: seq<Byte>): Hash {
    var k := |data| / 64;
    var rest := data[64 * k..];
    AbsorbAll(f, s, data, k).(tail := if rest == [] then [] else s.tail + rest)
  }

  /** What an update should do: whole blocks of the buffered bytes and the data together. */
  function Ideal(f: Compression, s: Hash, data: seq<Byte>): Hash {
    Direct(f, s.(tail := []), s.tail + data)
  }

  /** Where the buffered bytes get lost or overtaken. */
  predicate Loses(left: nat, n: nat) {
    left > 0 && (n == 0 || (n >= 64 && n % 64 < 64 - left))
  }

  lemma {:induction false} AbsorbFirst(f: Compression, s: Hash, block: seq<Byte>, rest: seq<Byte>, k: nat)
    requires |block| == 64 && 64 * k <= |rest|
    ensures AbsorbAll(f, s, block + rest, k + 1) == AbsorbAll(f, Absorb(f, s, block), rest, k)
    decreases k
  {
    hide Absorb;
    var data := block + rest;
    if k == 0 {
      assert AbsorbAll(f, s, data, 0) == s;
      assert BlockAt(data, 0) == block;
    } else {
      AbsorbFirst(f, s, block, rest, k - 1);
      assert BlockAt(data, k) == BlockAt(rest, k - 1);
    }
  }

  lemma {:induction false} AbsorbKeeps(f: Compression, s: Hash, data: seq<Byte>, k: nat, tail: seq<Byte>)
    requires 64 * k <= |data|
    ensures AbsorbAll(f, s.(tail := tail), data, k) == AbsorbAll(f, s, data, k).(tail := tail)
    ensures AbsorbAll(f, s, data, k).tail == s.tail
  {
    hide Absorb;
    if k > 0 {
      AbsorbKeeps(f, s, data, k - 1, tail);
      AbsorbForgets(f, AbsorbAll(f, s, data, k - 1), BlockAt(data, k - 1), tail);
    }
  }

  /** An update is the ideal one unless it loses the buffered bytes. */
  lemma UpdateIsIdeal(f: Compression, s: Hash, data: seq<Byte>)
    requires |s.tail| < 64 && !Loses(|s.tail|, |data|)
    ensures Update(f, s, data) == Ideal(f, s, data)
  {
    hide Absorb, AbsorbAll;
    var left, fill := |s.tail|, 64 - |s.tail|;
    var whole := s.tail + data;
    if left == 0 {
      assert whole == data;
    } else if |data| % 64 >= fill {
      var block, rest := s.tail + data[..fill], data[fill..];
      assert whole == block + rest;
      AbsorbFirst(f, s.(tail := []), block, rest, |rest| / 64);
      assert Absorb(f, s.(tail := []), block) == Absorb(f, s, block).(tail := []) by { AbsorbForgets(f, s, block, []); }
      assert |whole| / 64 == |rest| / 64 + 1;
      assert whole[64 * (|whole| / 64)..] == rest[64 * (|rest| / 64)..];
    } else {
      assert |data| / 64 == 0 && |whole| / 64 == 0;
      assert data[0..] == data && whole[0..] == whole;
      AbsorbNone(f, s, data);
      AbsorbNone(f, s.(tail := []), whole);
    }
  }

  lemma AbsorbForgets(f: Compression, s: Hash, block: seq<Byte>, tail: seq<Byte>)
    ensures Absorb(f, s.(tail := tail), block) == Absorb(f, s, block).(tail := tail)
            && Absorb(f, s, block).tail == s.tail
  {}

  lemma AbsorbNone(f: Compression, s: Hash, data: seq<Byte>)
    ensures AbsorbAll(f, s, data, 0) == s
  {}

  /** Ones buffered, zeros to come: an update of a length that loses them ends in another state. */
  lemma LosingUpdate(f: Compression, s: Hash, left: nat, n: nat)
    requires left < 64 && Loses(left, n) && s.tail == seq(left, _ => 1)
    ensures Update(f, s, Zeros(n)) != Ideal(f, s, Zeros(n))
  {
    hide AbsorbAll, Absorb;
    var data := Zeros(n);
    var whole := s.tail + data;
    if n > 0 {
      var rest := whole[64 * (|whole| / 64)..];
      assert |whole| / 64 == n / 64 && |rest| == left + n % 64;
      assert rest[0] == data[64 * (n / 64) - left];
      AbsorbKeeps(f, s, data, n / 64, s.tail);
      if n % 64 > 0 {
        assert Update(f, s, data).tail == s.tail + data[64 * (n / 64)..];
        assert Update(f, s, data).tail[0] == 1;
      }
    }
  }

  /** The lengths for which an update is right whatever is buffered and whatever comes. */
  lemma UpdateIsIdealIff(f: Compression, left: nat, n: nat)
    requires left < 64
    ensures (forall s: Hash, data: seq<Byte> ::
               |s.tail| == left && |data| == n ==> Update(f, s, data) == Ideal(f, s, data))
            <==> !Loses(left, n)
  {
    if Loses(left, n) {
      var s := START.(tail := seq(left, _ => 1));
      LosingUpdate(f, s, left, n);
      assert |s.tail| == left && |Zeros(n)| == n;
    } else {
      forall s: Hash, data: seq<Byte> | |s.tail| == left && |data| == n
        ensures Update(f, s, data) == Ideal(f, s, data)
      {
        UpdateIsIdeal(f, s, data);
      }
    }
  }

  // ----- finishing

  function Sub32(t0: nat, k: nat): nat { if t0 >= k then t0 - k else if t0 + TWO_32 >= k then t0 + TWO_32 - k else 0 }

  function Back(s: Hash, bits: nat): Hash { s.(t0 := Sub32(s.t0, bits)) }

  /** The length bytes that blake256_final_h takes at its start. */
  function LengthBytes(s: Hash): (d: seq<Byte>)
    requires |s.tail| < 64
    ensures |d| == 8
  {
    var lo := (s.t0 + 8 * |s.tail|) % TWO_32;
    var hi := (if lo < 8 * |s.tail| then s.t1 + 1 else s.t1) % TWO_32;
    Be32(hi) + Be32(lo)
  }

  /** The updates of blake256_final_h up to the length. */
  function Close(f: Compression, s: Hash, pa: Byte, pb: Byte): (r: Hash)
    requires |s.tail| < 64
    ensures |r.tail| < 64
  {
    var bits := 8 * |s.tail|;
    if bits == 440 then Small(f, Back(s, 8), [pa])
    else if bits < 440 then
      var s1 := if bits == 0 then s.(nullt := true) else s;
      Back(Small(f, Small(f, Back(s1, 440 - bits), [0x80] + Zeros(54 - |s.tail|)), [pb]), 8)
    else
      var s1 := Small(f, Back(s, 512 - bits), [0x80] + Zeros(63 - |s.tail|));
      var s2 := Small(f, Back(s1, 440), Zeros(55)).(nullt := true);
      Back(Small(f, s2, [pb]), 8)
  }

  function Finish(f: Compression, s: Hash, pa: Byte, pb: Byte): (r: Hash)
    requires |s.tail| < 64
  {
    Update(f, Back(Close(f, s, pa, pb), 64), LengthBytes(s))
  }

  /** An update by fewer than 64 bytes, with its result's buffer in bounds. */
  function Small(f: Compression, s: Hash, data: seq<Byte>): (r: Hash)
    requires |s.tail| < 64 && |data| < 64
    ensures |r.tail| < 64
  {
    SmallFits(f, s, data);
    Update(f, s, data)
  }

  lemma DirectSmall(f: Compression, s: Hash, data: seq<Byte>)
    requires |data| < 64
    ensures Direct(f, s, data) == s.(tail := if data == [] then [] else s.tail + data)
  {
    assert data[0..] == data;
  }

  lemma SmallFits(f: Compression, s: Hash, data: seq<Byte>)
    requires |s.tail| < 64 && |data| < 64
    ensures |Update(f, s, data).tail| < 64
  {
    hide Absorb, Direct;
    DirectSmall(f, s, data);
    var fill := 64 - |s.tail|;
    if s.tail != [] && |data| >= fill {
      DirectSmall(f, Absorb(f, s, s.tail + data[..fill]).(tail := []), data[fill..]);
    }
  }

  /** Data that do not fill the block are buffered; data that do, complete it. */
  lemma SmallIs(f: Compression, s: Hash, data: seq<Byte>)
    requires |s.tail| < 64 && 0 < |data| && |s.tail| + |data| <= 64 && |data| < 64
    ensures |s.tail| + |data| < 64 ==> Update(f, s, data) == s.(tail := s.tail + data)
    ensures |s.tail| + |data| == 64 ==> Update(f, s, data) == Absorb(f, s, s.tail + data).(tail := [])
  {
    hide Absorb, Direct;
    var fill := 64 - |s.tail|;
    if |data| == fill {
      assert data[..fill] == data && data[fill..] == [];
      DirectSmall(f, Absorb(f, s, s.tail + data).(tail := []), []);
    } else {
      DirectSmall(f, s, data);
    }
  }

  /** The counter halves of a count of bits. */
  predicate Counts(s: Hash, bits: nat) {
    s.t0 < TWO_32 && s.t1 < TWO_32 && TWO_32 * s.t1 + s.t0 == bits
  }

  lemma AbsorbCounts(f: Compression, s: Hash, block: seq<Byte>, i: nat)
    requires Counts(s, 512 * i) && 512 * (i + 1) < TWO_64 && !s.nullt
    ensures Counts(Absorb(f, s, block), 512 * (i + 1)) && Absorb(f, s, block).h == f(s.h, block, 512 * (i + 1))
  {}

  /** The state after one update with the whole message. */
  lemma {:induction false} AfterMessage(f: Compression, m: seq<Byte>, pa: Byte, pb: Byte, k: nat)
    requires 8 * |m| < TWO_64 && 64 * k <= |m|
    ensures 64 * k <= |Padded(m, pa, pb)|
    ensures var s := AbsorbAll(f, START, m, k);
            s.h == ChainAfter(f, Padded(m, pa, pb), |m|, k) && Counts(s, 512 * k) && !s.nullt && s.tail == []
  {
    hide Padded, Absorb;
    var p := Padded(m, pa, pb);
    if k > 0 {
      AfterMessage(f, m, pa, pb, k - 1);
      AbsorbKept(f, AbsorbAll(f, START, m, k - 1), BlockAt(m, k - 1));
      AbsorbCounts(f, AbsorbAll(f, START, m, k - 1), BlockAt(m, k - 1), k - 1);
      assert BlockAt(m, k - 1) == BlockAt(p, k - 1) by { assert p[..|m|] == m; }
    }
  }

  lemma AbsorbKept(f: Compression, s: Hash, block: seq<Byte>)
    ensures Absorb(f, s, block).nullt == s.nullt && Absorb(f, s, block).tail == s.tail
  {}

  lemma LowHalf(s: Hash, q: nat)
    requires Counts(s, 512 * q)
    ensures s.t0 % 512 == 0 && s.t0 + 512 <= TWO_32
  {
    assert s.t0 == 512 * (q - 0x80_0000 * s.t1);
  }

  /** The length that the final block carries is the number of message bits. */
  lemma LengthIs(s: Hash, q: nat)
    requires Counts(s, 512 * q) && |s.tail| < 64
    ensures 512 * q + 8 * |s.tail| < TWO_64 && LengthBytes(s) == Be64(512 * q + 8 * |s.tail|)
  {
    hide Be32;
    LowHalf(s, q);
    var lo := s.t0 + 8 * |s.tail|;
    Halves(s.t1, lo);
    assert lo % TWO_32 == lo && s.t1 % TWO_32 == s.t1;
  }

  lemma Halves(hi: nat, lo: nat)
    requires lo < TWO_32
    ensures (TWO_32 * hi + lo) / TWO_32 == hi && (TWO_32 * hi + lo) % TWO_32 == lo
  {}

  /** The subtractions from the low counter, and the 512 that the last block adds, leave the message bits. */
  lemma CounterRestored(t0: nat, bits: nat)
    requires t0 % 512 == 0 && t0 + 512 <= TWO_32 && bits < 512
    ensures bits <= 440 ==> Add512(Sub32(Sub32(Sub32(t0, 440 - bits), 8), 64)) == t0 + bits
    ensures bits == 440 ==> Add512(Sub32(Sub32(t0, 8), 64)) == t0 + bits
    ensures Add512(Sub32(t0, 512 - bits)) == t0 + bits
  {}

  /** Up to 55 bytes left: one block ends the message. */
  lemma FinishInOneBlock(f: Compression, s: Hash, q: nat, pa: Byte, pb: Byte)
    requires Counts(s, 512 * q) && !s.nullt && |s.tail| <= 55
    ensures Finish(f, s, pa, pb).h
              == f(s.h, s.tail + Padding(|s.tail|, pa, pb) + LengthBytes(s),
                   if s.tail == [] then 0 else 512 * q + 8 * |s.tail|)
  {
    hide Update, Add512, Sub32, LengthBytes;
    var r, len := |s.tail|, LengthBytes(s);
    LowHalf(s, q);
    CounterRestored(s.t0, 8 * r);
    if r == 55 {
      SmallIs(f, Back(s, 8), [pa]);
      var s1 := Back(s, 8).(tail := s.tail + [pa]);
      SmallIs(f, Back(s1, 64), len);
    } else {
      var s1 := if r == 0 then s.(nullt := true) else s;
      var pad := [0x80] + Zeros(54 - r);
      SmallIs(f, Back(s1, 440 - 8 * r), pad);
      var s2 := Back(s1, 440 - 8 * r).(tail := s.tail + pad);
      SmallIs(f, s2, [pb]);
      var s3 := Back(Back(s2.(tail := s.tail + pad + [pb]), 8), 64);
      SmallIs(f, s3, len);
      Cat3(s.tail, pad, [pb]);
      assert Gap(r) == 55 - r;
    }
  }

  /** More than 55 bytes left: one block for them, one for the rest of the padding, which counts nothing. */
  lemma FinishInTwoBlocks(f: Compression, s: Hash, q: nat, pa: Byte, pb: Byte)
    requires Counts(s, 512 * q) && !s.nullt && 55 < |s.tail| < 64
    ensures var h := f(s.h, s.tail + [0x80] + Zeros(63 - |s.tail|), 512 * q + 8 * |s.tail|);
            Finish(f, s, pa, pb).h == f(h, Zeros(55) + [pb] + LengthBytes(s), 0)
  {
    hide Update, Add512, Sub32, LengthBytes;
    var r, len := |s.tail|, LengthBytes(s);
    LowHalf(s, q);
    CounterRestored(s.t0, 8 * r);
    var pad := [0x80] + Zeros(63 - r);
    SmallIs(f, Back(s, 512 - 8 * r), pad);
    Cat3(s.tail, [0x80], Zeros(63 - r));
    var s1 := Absorb(f, Back(s, 512 - 8 * r), s.tail + pad).(tail := []);
    SmallIs(f, Back(s1, 440), Zeros(55));
    assert [] + Zeros(55) == Zeros(55);
    var s2 := Back(s1, 440).(tail := Zeros(55), nullt := true);
    SmallIs(f, s2, [pb]);
    SmallIs(f, Back(Back(s2.(tail := Zeros(55) + [pb]), 8), 64), len);
  }

  lemma Straddle(m: seq<Byte>, x: seq<Byte>, k: nat)
    requires 64 * k <= |m| < 64 * k + 64 && 64 * k + 64 <= |m| + |x|
    ensures var room := 64 * k + 64 - |m|;
            && BlockAt(m + x, k) == m[64 * k..] + x[..room]
            && (room + 64 <= |x| ==> BlockAt(m + x, k + 1) == x[room..room + 64])
  {}

  lemma LastBlocks(m: seq<Byte>, pa: Byte, pb: Byte)
    requires 8 * |m| < TWO_64
    ensures var p, k, tail, len := Padded(m, pa, pb), |m| / 64, m[64 * (|m| / 64)..], Be64(8 * |m|);
            if |tail| <= 55 then
              |p| == 64 * (k + 1) && BlockAt(p, k) == tail + Padding(|tail|, pa, pb) + len
            else
              && |p| == 64 * (k + 2)
              && BlockAt(p, k) == tail + [0x80] + Zeros(63 - |tail|)
              && BlockAt(p, k + 1) == Zeros(55) + [pb] + len
  {
    hide Be64, BlockAt, Padding;
    var k, len := |m| / 64, Be64(8 * |m|);
    var r := |m| - 64 * k;
    assert Gap(|m|) == Gap(r);
    SamePadding(|m|, r, pa, pb);
    var pad := Padding(r, pa, pb);
    Cat3(m, pad, len);
    Straddle(m, pad + len, k);
    if r <= 55 {
      assert (pad + len)[..64 - r] == pad + len;
      Cat3(m[64 * k..], pad, len);
    } else {
      LongPadding(r, pa, pb, len);
      Cat3(m[64 * k..], [0x80], Zeros(63 - r));
    }
  }

  lemma SamePadding(n: nat, r: nat, pa: Byte, pb: Byte)
    requires Gap(n) == Gap(r)
    ensures Padding(n, pa, pb) == Padding(r, pa, pb)
  {}

  lemma LongPadding(r: nat, pa: Byte, pb: Byte, len: seq<Byte>)
    requires 55 < r < 64 && |len| == 8
    ensures var x := Padding(r, pa, pb) + len;
            |x| == 128 - r && x[..64 - r] == [0x80] + Zeros(63 - r) && x[64 - r..128 - r] == Zeros(55) + [pb] + len
  {
    var x := Padding(r, pa, pb) + len;
    assert x == [0x80] + Zeros(118 - r) + [pb] + len;
  }

  /** blake256_hash is BLAKE-256 by its definition, for every message length and all three ways to pad. */
  lemma OneShot(f: Compression, m: seq<Byte>, pa: Byte, pb: Byte)
    requires 8 * |m| < TWO_64
    ensures |Update(f, START, m).tail| < 64
    ensures Digest(Finish(f, Update(f, START, m), pa, pb).h) == Blake(f, m, pa, pb)
  {
    hide AbsorbAll, Padded, Finish, LengthBytes, Be64, Digest, BlockAt, Padding;
    var k, p, n := |m| / 64, Padded(m, pa, pb), |m|;
    var tail := m[64 * k..];
    AfterMessage(f, m, pa, pb, k);
    var s := AbsorbAll(f, START, m, k).(tail := tail);
    assert Update(f, START, m) == s by { assert [] + tail == tail; }
    LengthIs(s, k);
    LastBlocks(m, pa, pb);
    if |tail| <= 55 {
      FinishInOneBlock(f, s, k, pa, pb);
    } else {
      FinishInTwoBlocks(f, s, k, pa, pb);
      assert Count(n, k) == 8 * n && Count(n, k + 1) == 0;
      assert ChainAfter(f, p, n, k + 1) == f(s.h, BlockAt(p, k), 8 * n);
    }
  }

  // ----- the code

  class State {
    const f: Compression
    var h: Chain
    var t0: nat
    var t1: nat
    var nullt: bool
    var buflen: nat
    const buf: array<Byte>

    ghost predicate Valid()
      reads this
    {
      buf.Length == 64 && buflen % 8 == 0 && buflen < 512
    }

    ghost function Now(): (s: Hash)
      requires Valid()
      reads this, buf
      ensures |s.tail| < 64
    {
      Hash(h, t0, t1, nullt, buf[..buflen / 8])
    }

    /** blake256_init */
    constructor (f: Compression)
      ensures Valid() && Now() == START && this.f == f && fresh(buf)
    {
      this.f := f;
      h := INITIAL;
      t0, t1, buflen, nullt := 0, 0, 0, false;
      buf := new Byte[64](_ => 0);
    }

    method Compress(block: seq<Byte>)
      requires Valid()
      modifies this`h, this`t0, this`t1
      ensures Now() == Absorb(f, old(Now()), block)
    {
      t0 := Add512(t0);
      if t0 == 0 {
        t1 := (t1 + 1) % TWO_32;
      }
      h := f(h, block, if nullt then 0 else TWO_32 * t1 + t0);
    }

    /** memcpy to the buffer. */
    method Store(at: nat, data: seq<Byte>)
      requires Valid() && at + |data| <= 64
      modifies buf
      ensures buf[..at + |data|] == old(buf[..at]) + data
    {
      for i := 0 to |data|
        invariant buf[..at + i] == old(buf[..at]) + data[..i]
      {
        buf[at + i] := data[i];
      }
    }

    /** The whole blocks of the data, straight from there. */
    method CompressBlocks(data: seq<Byte>, ghost tail: seq<Byte>) returns (at: nat)
      requires Valid()
      modifies this`h, this`t0, this`t1
      ensures at == |data| / 64 * 64 && Valid()
      ensures Hash(h, t0, t1, nullt, tail)
           == AbsorbAll(f, Hash(old(h), old(t0), old(t1), nullt, tail), data, |data| / 64)
    {
      hide Absorb;
      ghost var s := Hash(h, t0, t1, nullt, tail);
      at := 0;
      ghost var k := 0;
      while |data| - at >= 64
        invariant at == 64 * k <= |data|
        invariant Hash(h, t0, t1, nullt, tail) == AbsorbAll(f, s, data, k)
      {
        AbsorbFields(f, Now(), AbsorbAll(f, s, data, k), BlockAt(data, k));
        Compress(data[at..at + 64]);
        at := at + 64;
        k := k + 1;
      }
    }

    /** The second half of blake256_update: whole blocks straight from the data, what is left into the buffer. */
    method CompressDirect(data: seq<Byte>, left: nat)
      requires Valid() && left + |data| % 64 < 64
      modifies this, buf
      ensures Valid() && Now() == Direct(f, Hash(old(h), old(t0), old(t1), nullt, old(buf[..left])), data)
      ensures nullt == old(nullt)
    {
      hide AbsorbAll;
      ghost var tail := buf[..left];
      var at := CompressBlocks(data, tail);
      if |data| - at > 0 {
        Store(left, data[at..]);
        buflen := 8 * (left + |data| - at);
      } else {
        buflen := 0;
      }
    }

    /** blake256_update on whole bytes. */
    method UpdateWith(data: seq<Byte>)
      requires Valid() && 8 * |data| < TWO_64
      modifies this, buf
      ensures Valid() && Now() == Update(f, old(Now()), data)
    {
      hide Absorb, Direct;
      var left := buflen / 8;
      var fill := 64 - left;
      ghost var s := Now();
      if left != 0 && |data| % 64 >= fill {
        Store(left, data[..fill]);
        assert buf[..] == buf[..64] == s.tail + data[..fill];
        AbsorbFields(f, s, Hash(h, t0, t1, nullt, buf[..left]), s.tail + data[..fill]);
        Compress(buf[..]);
        CompressDirect(data[fill..], 0);
        assert buf[..0] == [];
      } else {
        CompressDirect(data, left);
      }
    }

    /** The padding of blake256_final_h. */
    method CloseWith(pa: Byte, pb: Byte)
      requires Valid()
      modifies this, buf
      ensures Valid() && Now() == Close(f, old(Now()), pa, pb)
    {
      hide Update;
      if buflen == 440 {
        t0 := Sub32(t0, 8);
        UpdateWith([pa]);
      } else {
        if buflen < 440 {
          if buflen == 0 {
            nullt := true;
          }
          t0 := Sub32(t0, 440 - buflen);
          UpdateWith([0x80] + Zeros((440 - buflen) / 8 - 1));
        } else {
          t0 := Sub32(t0, 512 - buflen);
          UpdateWith([0x80] + Zeros((512 - buflen) / 8 - 1));
          t0 := Sub32(t0, 440);
          UpdateWith(Zeros(55));
          nullt := true;
        }
        UpdateWith([pb]);
        t0 := Sub32(t0, 8);
      }
    }

    /** blake256_final_h */
    method Final(pa: Byte, pb: Byte) returns (digest: seq<Byte>)
      requires Valid()
      modifies this, buf
      ensures Valid() && Now() == Finish(f, old(Now()), pa, pb) && digest == Digest(h)
    {
      hide Update, Digest, Be32, Close, Sub32;
      var lo := (t0 + buflen) % TWO_32;
      var hi := t1;
      if lo < buflen {
        hi := t1 + 1;
      }
      var msglen := Be32(hi % TWO_32) + Be32(lo);
      assert msglen == LengthBytes(Now());
      CloseWith(pa, pb);
      t0 := Sub32(t0, 64);
      UpdateWith(msglen);
      digest := Digest(h);
    }
  }

  lemma AbsorbFields(f: Compression, s: Hash, r: Hash, block: seq<Byte>)
    requires s.h == r.h && s.t0 == r.t0 && s.t1 == r.t1 && s.nullt == r.nullt
    ensures Absorb(f, s, block).(tail := r.tail) == Absorb(f, r, block)
  {}

  const PA: Byte := 0x81
  const PB: Byte := 0x01

  /** blake256_hash */
  method HashOf(f: Compression, m: seq<Byte>) returns (digest: seq<Byte>)
    requires 8 * |m| < TWO_64
    ensures digest == Blake(f, m, PA, PB)
  {
    hide Update, Finish, Blake, Digest;
    var s := new State(f);
    s.UpdateWith(m);
    digest := s.Final(PA, PB);
    OneShot(f, m, PA, PB);
  }

  // ----- HMAC (section 2 of RFC 2104)

  function Xor(a: Byte, b: Byte): Byte { ((a as bv8) ^ (b as bv8)) as int }

  function XorAll(s: seq<Byte>, b: Byte): (r: seq<Byte>)
    ensures |r| == |s|
  {
    seq(|s|, i requires 0 <= i < |s| => Xor(s[i], b))
  }

  /** The key, hashed if it is longer than a block, filled up with zeros. */
  function BlockKey(f: Compression, key: seq<Byte>): (k: seq<Byte>)
    requires 8 * |key| < TWO_64
    ensures |k| == 64
  {
    var short := if |key| > 64 then Blake(f, key, PA, PB) else key;
    short + Zeros(64 - |short|)
  }

  function Hmac(f: Compression, key: seq<Byte>, text: seq<Byte>): seq<Byte>
    requires 8 * |key| < TWO_64 && 8 * (64 + |text|) < TWO_64
  {
    var k := BlockKey(f, key);
    Blake(f, XorAll(k, 0x5c) + Blake(f, XorAll(k, 0x36) + text, PA, PB), PA, PB)
  }

  /** A pad whose first bytes are xored with the key is the xor of the zero-filled key. */
  lemma PadIs(key: seq<Byte>, b: Byte, pad: seq<Byte>)
    requires |key| <= 64 && |pad| == 64
    requires forall i :: 0 <= i < 64 ==> pad[i] == if i < |key| then Xor(b, key[i]) else b
    ensures pad == XorAll(key + Zeros(64 - |key|), b)
  {
    hide Xor;
    forall i | 0 <= i < 64 ensures pad[i] == XorAll(key + Zeros(64 - |key|), b)[i] {
      if i < |key| {
        XorCommutes(b, key[i]);
      } else {
        XorZero(b);
      }
    }
  }

  lemma XorCommutes(a: Byte, b: Byte)
    ensures Xor(a, b) == Xor(b, a)
  {}

  lemma XorZero(b: Byte)
    ensures Xor(0, b) == b
  {
    assert (0 as bv8) ^ (b as bv8) == b as bv8;
  }

  /** An update with one whole block first makes no difference. */
  lemma BlockFirst(f: Compression, block: seq<Byte>, m: seq<Byte>)
    requires |block| == 64
    ensures |Update(f, START, block).tail| == 0
    ensures Update(f, Update(f, START, block), m) == Update(f, START, block + m)
  {
    hide Absorb, AbsorbAll, Direct;
    assert [] + block == block && [] + m == m;
    WholeBlock(f, START, block);
    UpdateIsIdeal(f, START, block + m);
    assert [] + (block + m) == block + m;
    DirectAfter(f, START, block, m);
  }

  lemma WholeBlock(f: Compression, s: Hash, block: seq<Byte>)
    requires |block| == 64
    ensures Direct(f, s, block) == Absorb(f, s, block).(tail := [])
  {
    hide Absorb;
    AbsorbNone(f, s, block);
    assert BlockAt(block, 0) == block;
    assert block[64..] == [];
  }

  lemma DirectAfter(f: Compression, s: Hash, block: seq<Byte>, m: seq<Byte>)
    requires |block| == 64 && s.tail == []
    ensures Direct(f, Absorb(f, s, block).(tail := []), m) == Direct(f, s, block + m)
  {
    hide Absorb, AbsorbAll;
    AbsorbFirst(f, s, block, m, |m| / 64);
    AbsorbForgets(f, s, block, []);
    assert (block + m)[64 * (|m| / 64 + 1)..] == m[64 * (|m| / 64)..];
  }

  class HmacState {
    const inner: State
    const outer: State

    ghost predicate Valid()
      reads this, inner, outer
    {
      inner.Valid() && outer.Valid() && inner != outer && inner.buf != outer.buf && inner.f == outer.f
    }

    /** hmac_blake256_init */
    constructor (f: Compression, key: seq<Byte>)
      requires 8 * |key| < TWO_64
      ensures Valid() && inner.f == f && fresh({inner, outer}) && fresh(inner.buf) && fresh(outer.buf)
      ensures inner.Now() == Update(f, START, XorAll(BlockKey(f, key), 0x36))
      ensures outer.Now() == Update(f, START, XorAll(BlockKey(f, key), 0x5c))
    {
      hide Update, Blake, XorAll;
      var short := key;
      if |key| > 64 {
        short := HashOf(f, key);
      }
      var s := new State(f);
      var pad := KeyPad(short, 0x36);
      s.UpdateWith(pad);
      var t := new State(f);
      pad := KeyPad(short, 0x5c);
      t.UpdateWith(pad);
      inner := s;
      outer := t;
    }

    /** hmac_blake256_update */
    method UpdateWith(data: seq<Byte>)
      requires Valid() && 8 * |data| < TWO_64
      modifies inner, inner.buf
      ensures Valid() && inner.Now() == Update(inner.f, old(inner.Now()), data) && outer.Now() == old(outer.Now())
    {
      inner.UpdateWith(data);
    }

    /** hmac_blake256_final */
    method Final() returns (digest: seq<Byte>)
      requires Valid()
      modifies inner, inner.buf, outer, outer.buf
      ensures var ihash := Digest(Finish(inner.f, old(inner.Now()), PA, PB).h);
              var s := Update(inner.f, old(outer.Now()), ihash);
              |s.tail| < 64 && digest == Digest(Finish(inner.f, s, PA, PB).h)
    {
      hide Update, Finish, Digest;
      var ihash := inner.Final(PA, PB);
      outer.UpdateWith(ihash);
      digest := outer.Final(PA, PB);
    }
  }

  method KeyPad(key: seq<Byte>, b: Byte) returns (pad: seq<Byte>)
    requires |key| <= 64
    ensures pad == XorAll(key + Zeros(64 - |key|), b)
  {
    hide Xor;
    var a := new Byte[64](_ => b);
    for i := 0 to |key|
      invariant forall k :: 0 <= k < 64 ==> a[k] == if k < i then Xor(b, key[k]) else b
    {
      a[i] := Xor(a[i], key[i]);
    }
    pad := a[..];
    PadIs(key, b, pad);
  }

  /** hmac_blake256_hash is HMAC over BLAKE-256, for every length of the key and of the text. */
  method HmacOf(f: Compression, key: seq<Byte>, text: seq<Byte>) returns (digest: seq<Byte>)
    requires 8 * |key| < TWO_64 && 8 * (64 + |text|) < TWO_64
    ensures digest == Hmac(f, key, text)
  {
    hide Update, Finish, Digest, Blake, BlockKey, XorAll;
    ghost var k := BlockKey(f, key);
    var s := new HmacState(f, key);
    s.UpdateWith(text);
    digest := s.Final();
    BlockFirst(f, XorAll(k, 0x36), text);
    OneShot(f, XorAll(k, 0x36) + text, PA, PB);
    ghost var ihash := Blake(f, XorAll(k, 0x36) + text, PA, PB);
    BlockFirst(f, XorAll(k, 0x5c), ihash);
    OneShot(f, XorAll(k, 0x5c) + ihash, PA, PB);
  }
}
