/** Hashing with Skein-512 (CryptoNight/skein.cpp): the updates, which always hold the last 1 to 64 bytes back,
    the final block and the output blocks, over an arbitrary block function. Chain values are 64 bytes,
    words in little-endian order. */
module Skein512 {
  import opened Bytes

  type Block = b: seq<Byte> | |b| == 64 witness seq(64, _ => 0)

  /** Skein_512_Process_Block on one block: chain value, position, flags and type, block. */
  type Compression = (Block, nat, bv64, Block) -> Block

  const FIRST: bv64 := 0x4000_0000_0000_0000
  const FINAL: bv64 := 0x8000_0000_0000_0000
  const MSG: bv64 := 0x3000_0000_0000_0000
  const OUT_FINAL: bv64 := 0xbf00_0000_0000_0000

  // ----- the definition (sections 3.4 and 3.5 of the Skein 1.3 specification)

  function Flags(first: bool, final: bool): bv64 {
    if first then (if final then MSG | FIRST | FINAL else MSG | FIRST) else if final then MSG | FINAL else MSG
  }

  /** The chaining over a message of whole bytes whose last block is filled up with zeros; `position` bytes came
      before it. Even the empty message has a block. */
  function Ubi(f: Compression, x: Block, position: nat, first: bool, m: seq<Byte>): Block
    decreases |m|
  {
    if |m| <= 64 then f(x, (position + |m|) % TWO_64, Flags(first, true), m + Zeros(64 - |m|))
    else Ubi(f, f(x, (position + 64) % TWO_64, Flags(first, false), m[..64]), position + 64, false, m[64..])
  }

  /** The lowest bytes of a number first. */
  function Le(x: nat, n: nat): (s: seq<Byte>)
    ensures |s| == n
  {
    if n == 0 then [] else [x % 256] + Le(x / 256, n - 1)
  }

  function OutputBlock(f: Compression, x: Block, i: nat): Block {
    f(x, 8, OUT_FINAL | FIRST, Le(i, 8) + Zeros(56))
  }

  /** The first n bytes of the output blocks. */
  function Output(f: Compression, x: Block, n: nat): (out: seq<Byte>)
    ensures |out| == n
  {
    seq(n, k requires 0 <= k < n => OutputBlock(f, x, k / 64)[k % 64])
  }

  function WithFinal(t1: bv64): bv64 { t1 | FINAL }
  function WithoutFirst(t1: bv64): bv64 { t1 & !FIRST }

  // ----- updates

  datatype Hash = Hash(x: Block, t0: nat, t1: bv64, tail: seq<Byte>)

  function Processed(f: Compression, s: Hash, block: Block, add: nat): Hash {
    var t0 := (s.t0 + add) % TWO_64;
    Hash(f(s.x, t0, s.t1, block), t0, WithoutFirst(s.t1), s.tail)
  }

  /** All data but the last 1 to 64 bytes processed. */
  function Absorb(f: Compression, s: Hash, data: seq<Byte>): (r: Hash)
    ensures |r.tail| <= 64 && (data != [] ==> r.tail != [])
    decreases |data|
  {
    if |data| <= 64 then s.(tail := data) else Absorb(f, Processed(f, s, data[..64], 64), data[64..])
  }

  function Update(f: Compression, s: Hash, data: seq<Byte>): Hash {
    Absorb(f, s, s.tail + data)
  }

  lemma {:induction false} AbsorbOn(f: Compression, s: Hash, a: seq<Byte>, b: seq<Byte>)
    ensures Absorb(f, s, a + b) == Absorb(f, Absorb(f, s, a), Absorb(f, s, a).tail + b)
    decreases |a|
  {
    hide Processed;
    if |a| <= 64 {
      AbsorbForgets(f, s, a, a + b);
    } else {
      assert (a + b)[..64] == a[..64] && (a + b)[64..] == a[64..] + b;
      AbsorbOn(f, Processed(f, s, a[..64], 64), a[64..], b);
    }
  }

  lemma {:induction false} AbsorbForgets(f: Compression, s: Hash, tail: seq<Byte>, data: seq<Byte>)
    ensures Absorb(f, s.(tail := tail), data) == Absorb(f, s, data)
    decreases |data|
  {
    if |data| > 64 {
      AbsorbForgets(f, Processed(f, s, data[..64], 64), tail, data[64..]);
    }
  }

  /** Any split of a message into updates reaches the chain value, tweak and buffer of one update, and 1 to 64 bytes
      are held back once any have come. */
  lemma SplitUpdates(f: Compression, s: Hash, a: seq<Byte>, b: seq<Byte>)
    ensures Update(f, Update(f, s, a), b) == Update(f, s, a + b)
    ensures s.tail + a + b != [] ==> 1 <= |Update(f, s, a + b).tail| <= 64
  {
    hide Absorb;
    Cat3(s.tail, a, b);
    AbsorbOn(f, s, s.tail + a, b);
  }

  /** How much is held back, and which bytes: the last ones. */
  lemma {:induction false} HeldBack(f: Compression, s: Hash, data: seq<Byte>)
    ensures var k := if data == [] then 0 else (|data| - 1) / 64;
            Absorb(f, s, data).tail == data[64 * k..]
    decreases |data|
  {
    hide Processed;
    if |data| > 64 {
      HeldBack(f, Processed(f, s, data[..64], 64), data[64..]);
      var k := (|data| - 1) / 64;
      assert (|data[64..]| - 1) / 64 == k - 1 && data[64..][64 * (k - 1)..] == data[64 * k..];
    } else {
      assert data[0..] == data;
    }
  }

  /** The chain value once the final block is processed. */
  function Closed(f: Compression, s: Hash): Hash
    requires |s.tail| <= 64
  {
    Processed(f, s.(t1 := WithFinal(s.t1)), s.tail + Zeros(64 - |s.tail|), |s.tail|)
  }

  /** However the message came in, its final block ends the chaining of the definition. */
  lemma {:induction false} ClosedIs(f: Compression, s: Hash, first: bool, m: seq<Byte>)
    requires s.t1 == Flags(first, false) && s.t0 < TWO_64
    ensures Closed(f, Absorb(f, s, m)).x == Ubi(f, s.x, s.t0, first, m)
    decreases |m|
  {
    FlagsOf(first);
    hide Flags, WithFinal, WithoutFirst;
    if |m| > 64 {
      var next := Processed(f, s, m[..64], 64);
      ClosedIs(f, next, false, m[64..]);
      UbiPosition(f, next.x, s.t0 + 64, false, m[64..]);
    }
  }

  lemma FlagsOf(first: bool)
    ensures WithFinal(Flags(first, false)) == Flags(first, true)
    ensures WithoutFirst(Flags(first, false)) == Flags(false, false)
  {}

  /** Positions count modulo 2^64. */
  lemma {:induction false} UbiPosition(f: Compression, x: Block, p: nat, first: bool, m: seq<Byte>)
    ensures Ubi(f, x, p % TWO_64, first, m) == Ubi(f, x, p, first, m)
    decreases |m|
  {
    hide Flags;
    ModAdd(p, if |m| <= 64 then |m| else 64);
    if |m| > 64 {
      var y := f(x, (p + 64) % TWO_64, Flags(first, false), m[..64]);
      UbiPosition(f, y, p + 64, false, m[64..]);
      UbiPosition(f, y, p % TWO_64 + 64, false, m[64..]);
    }
  }

  lemma ModAdd(p: nat, n: nat)
    ensures (p % TWO_64 + n) % TWO_64 == (p + n) % TWO_64
  {}

  // ----- the code

  class Context {
    const f: Compression
    const hashBitLen: nat
    var x: Block
    var t0: nat
    var t1: bv64
    const b: array<Byte>
    var bCnt: nat

    ghost predicate Valid()
      reads this
    {
      b.Length == 64 && bCnt <= 64
    }

    ghost function Now(): (s: Hash)
      requires Valid()
      reads this, b
      ensures |s.tail| <= 64
    {
      Hash(x, t0, t1, b[..bCnt])
    }

    /** The end of Skein_512_Init, with the chain value of the configuration block. */
    constructor (f: Compression, hashBitLen: nat, iv: Block)
      ensures Valid() && Now() == Hash(iv, 0, Flags(true, false), []) && fresh(b)
      ensures this.f == f && this.hashBitLen == hashBitLen
    {
      this.f := f;
      this.hashBitLen := hashBitLen;
      x := iv;
      b := new Byte[64](_ => 0);
      t0, t1, bCnt := 0, MSG | FIRST, 0;
    }

    /** Skein_512_Process_Block: n blocks of the data. */
    method ProcessBlocks(data: seq<Byte>, n: nat, add: nat)
      requires 64 * n <= |data|
      modifies this`x, this`t0, this`t1
      ensures Hash(x, t0, t1, []) == Many(f, Hash(old(x), old(t0), old(t1), []), data, n, add)
    {
      hide Processed;
      ghost var s := Hash(x, t0, t1, []);
      for i := 0 to n
        invariant Hash(x, t0, t1, []) == Many(f, s, data, i, add)
      {
        ProcessedIs(f, Hash(x, t0, t1, []), data[64 * i..64 * i + 64], add);
        t0 := (t0 + add) % TWO_64;
        x := f(x, t0, t1, data[64 * i..64 * i + 64]);
        t1 := WithoutFirst(t1);
      }
    }

    method Store(data: seq<Byte>)
      requires Valid() && bCnt + |data| <= 64
      modifies this`bCnt, b
      ensures bCnt == old(bCnt) + |data| && b[..bCnt] == old(b[..bCnt]) + data
    {
      for i := 0 to |data|
        invariant bCnt == old(bCnt) && b[..bCnt + i] == old(b[..bCnt]) + data[..i]
      {
        b[bCnt + i] := data[i];
      }
      bCnt := bCnt + |data|;
    }

    /** Skein_512_Update */
    method UpdateWith(msg: seq<Byte>)
      requires Valid()
      modifies this, b
      ensures Valid() && Now() == Update(f, old(Now()), msg)
    {
      hide Absorb, Processed, Many;
      ghost var s := Now();
      var rest := msg;
      if |msg| + bCnt > 64 {
        if bCnt != 0 {
          var n := 64 - bCnt;
          AbsorbFull(f, s, msg, n);
          Store(msg[..n]);
          assert b[..] == b[..64];
          rest := msg[n..];
          ProcessBlocks(b[..], 1, 64);
          ManyOne(f, s.(tail := []), b[..], 64);
          bCnt := 0;
        }
        assert b[..0] == [] && [] + msg == msg;
        ghost var mid := Now();
        assert Update(f, s, msg) == Absorb(f, mid, rest);
        if |rest| > 64 {
          var n := (|rest| - 1) / 64;
          AbsorbMany(f, mid, rest, n);
          ProcessBlocks(rest, n, 64);
          rest := rest[64 * n..];
        }
        AbsorbLast(f, Now(), rest);
      } else {
        AbsorbLast(f, s, s.tail + msg);
      }
      if |rest| != 0 {
        Store(rest);
      }
    }

    /** The start of Skein_512_Final: zeros after the held bytes, and the block marked as the last. */
    method Close()
      requires Valid()
      modifies this, b
      ensures x == Closed(f, old(Now())).x && Valid()
    {
      hide Processed, Many, WithFinal;
      ghost var s := Now();
      t1 := WithFinal(t1);
      StoreZeros();
      ProcessBlocks(b[..], 1, bCnt);
      ManyOne(f, Hash(s.x, s.t0, WithFinal(s.t1), []), b[..], bCnt);
      ProcessedChain(f, s.(t1 := WithFinal(s.t1)), b[..], bCnt);
    }

    /** memset after the held bytes. */
    method StoreZeros()
      requires Valid()
      modifies b
      ensures b[..] == old(b[..bCnt]) + Zeros(64 - bCnt)
    {
      for i := bCnt to 64
        invariant b[..i] == old(b[..bCnt]) + Zeros(i - bCnt)
      {
        b[i] := 0;
      }
      assert b[..] == b[..64];
    }

    /** The output loop of Skein_512_Final: the chain value is the same for every block. */
    method Emit(byteCnt: nat) returns (hashVal: seq<Byte>)
      requires Valid()
      modifies this, b
      ensures hashVal == Output(f, old(x), byteCnt)
    {
      hide Many, Processed, OutputBlock;
      var key := x;
      hashVal := [];
      var i := 0;
      while 64 * i < byteCnt
        invariant Valid() && x == key
        invariant hashVal == Output(f, key, if 64 * i < byteCnt then 64 * i else byteCnt)
        decreases byteCnt - 64 * i
      {
        t0, t1, bCnt := 0, FIRST | OUT_FINAL, 0;
        Store(Le(i, 8) + Zeros(56));
        assert b[..] == b[..64] && b[..0] == [];
        bCnt := 0;
        ProcessBlocks(b[..], 1, 8);
        ManyOne(f, Hash(key, 0, FIRST | OUT_FINAL, []), b[..], 8);
        OutputBlockIs(f, key, i);
        var n := byteCnt - 64 * i;
        if n >= 64 {
          n := 64;
        }
        OutputMore(f, key, i, n);
        hashVal := hashVal + x[..n];
        x := key;
        i := i + 1;
      }
    }

    /** Skein_512_Final: (hashBitLen + 7) / 8 bytes. */
    method Final() returns (hashVal: seq<Byte>)
      requires Valid()
      modifies this, b
      ensures hashVal == Output(f, Closed(f, old(Now())).x, (hashBitLen + 7) / 8)
    {
      Close();
      hashVal := Emit((hashBitLen + 7) / 8);
    }
  }

  lemma ProcessedChain(f: Compression, s: Hash, block: Block, add: nat)
    ensures Processed(f, s.(tail := []), block, add).x == Processed(f, s, block, add).x
  {}

  lemma OutputBlockIs(f: Compression, x: Block, i: nat)
    ensures Processed(f, Hash(x, 0, FIRST | OUT_FINAL, []), Le(i, 8) + Zeros(56), 8).x == OutputBlock(f, x, i)
  {}

  lemma OutputMore(f: Compression, x: Block, i: nat, n: nat)
    requires n <= 64
    ensures Output(f, x, 64 * i + n) == Output(f, x, 64 * i) + OutputBlock(f, x, i)[..n]
  {
    hide OutputBlock;
    forall k | 64 * i <= k < 64 * i + n ensures k / 64 == i && k % 64 == k - 64 * i {}
  }

  /** Skein-512 by its definition, for every message and every length of the output. */
  method HashOf(f: Compression, hashBitLen: nat, iv: Block, m: seq<Byte>) returns (hashVal: seq<Byte>)
    ensures hashVal == Output(f, Ubi(f, iv, 0, true, m), (hashBitLen + 7) / 8)
  {
    hide Update, Closed, Ubi, Flags;
    var ctx := new Context(f, hashBitLen, iv);
    ctx.UpdateWith(m);
    WholeMessage(f, Hash(iv, 0, Flags(true, false), []), m);
    hashVal := ctx.Final();
  }

  lemma WholeMessage(f: Compression, s: Hash, m: seq<Byte>)
    requires s.t1 == Flags(true, false) && s.t0 == 0 && s.tail == []
    ensures Closed(f, Update(f, s, m)).x == Ubi(f, s.x, 0, true, m)
  {
    hide Closed, Absorb, Ubi, Flags;
    assert [] + m == m;
    ClosedIs(f, s, true, m);
  }

  function Many(f: Compression, s: Hash, data: seq<Byte>, n: nat, add: nat): Hash
    requires 64 * n <= |data|
  {
    if n == 0 then s else Processed(f, Many(f, s, data, n - 1, add), data[64 * (n - 1)..64 * n], add)
  }

  lemma ProcessedIs(f: Compression, s: Hash, block: Block, add: nat)
    ensures Processed(f, s, block, add)
         == Hash(f(s.x, (s.t0 + add) % TWO_64, s.t1, block), (s.t0 + add) % TWO_64, WithoutFirst(s.t1), s.tail)
  {}

  lemma ManyOne(f: Compression, s: Hash, block: seq<Byte>, add: nat)
    requires |block| == 64
    ensures Many(f, s, block, 1, add) == Processed(f, s, block, add)
  {
    hide Processed;
    assert block[0..64] == block;
    assert Many(f, s, block, 0, add) == s;
  }

  lemma AbsorbLast(f: Compression, s: Hash, data: seq<Byte>)
    requires |data| <= 64
    ensures Absorb(f, s, data) == s.(tail := data)
  {}

  /** The buffer filled from the front of the message, when more than that comes. */
  lemma AbsorbFull(f: Compression, s: Hash, msg: seq<Byte>, n: nat)
    requires |s.tail| + n == 64 && n < |msg|
    ensures Update(f, s, msg) == Absorb(f, Processed(f, s.(tail := []), s.tail + msg[..n], 64), msg[n..])
  {
    hide Processed;
    var whole := s.tail + msg;
    assert whole[..64] == s.tail + msg[..n] && whole[64..] == msg[n..];
    ForgetsToo(f, s, s.tail + msg[..n]);
    AbsorbForgets(f, Processed(f, s, s.tail + msg[..n], 64), [], msg[n..]);
  }

  lemma ForgetsToo(f: Compression, s: Hash, block: Block)
    ensures Processed(f, s.(tail := []), block, 64) == Processed(f, s, block, 64).(tail := [])
  {}

  lemma {:induction false} AbsorbMany(f: Compression, s: Hash, data: seq<Byte>, n: nat)
    requires 64 * n < |data|
    ensures Absorb(f, s, data) == Absorb(f, Many(f, s, data, n, 64), data[64 * n..])
  {
    hide Processed;
    if n == 0 {
      assert data[0..] == data;
    } else {
      AbsorbMany(f, s, data, n - 1);
      var rest := data[64 * (n - 1)..];
      assert rest[..64] == data[64 * (n - 1)..64 * n] && rest[64..] == data[64 * n..];
    }
  }
}
