/** Groestl-256 (CryptoNight/groestl.cpp) over arbitrary compression and output functions: buffering, the block
    counter in two words, padding. Messages are whole bytes. */
module Groestl {
  import opened Bytes

  type Block = b: seq<Byte> | |b| == 64 witness seq(64, _ => 0)

  /** F512: chain value and block. */
  type Compression = (Block, Block) -> Block

  /** 256, the number of output bits, in the last two words. */
  const INITIAL: Block := Zeros(62) + [1, 0]

  // ----- the definition

  /** The state between two updates: the blocks so far are counted modulo 2^64. */
  datatype Hash = Hash(h: Block, count: nat, tail: seq<Byte>)

  const START: Hash := Hash(INITIAL, 0, [])

  function Digested(f: Compression, s: Hash, block: Block): Hash {
    Hash(f(s.h, block), (s.count + 1) % TWO_64, [])
  }

  /** Whole blocks digested, the rest kept: fewer than 64 bytes. */
  function Absorb(f: Compression, s: Hash, data: seq<Byte>): (r: Hash)
    ensures |r.tail| < 64
    decreases |data|
  {
    if |data| < 64 then s.(tail := data) else Absorb(f, Digested(f, s, data[..64]), data[64..])
  }

  function Update(f: Compression, s: Hash, data: seq<Byte>): Hash {
    Absorb(f, s, s.tail + data)
  }

  function Blocks(n: nat): nat {
    if n % 64 <= 55 then n / 64 + 1 else n / 64 + 2
  }

  /** A one bit, zeros, and the number of blocks that the padded message has. */
  function Padding(n: nat): (p: seq<Byte>)
    requires Blocks(n) < TWO_64
    ensures n + |p| == 64 * Blocks(n)
  {
    [0x80] + Zeros(64 * Blocks(n) - n - 9) + Be64(Blocks(n))
  }

  /** The chain value after a message of whole blocks. */
  function Chain(f: Compression, h: Block, p: seq<Byte>): Block
    decreases |p|
  {
    if |p| < 64 then h else Chain(f, f(h, p[..64]), p[64..])
  }

  function HashOf(f: Compression, output: Block -> Block, m: seq<Byte>): (d: seq<Byte>)
    requires Blocks(|m|) < TWO_64
    ensures |d| == 32
  {
    output(Chain(f, INITIAL, m + Padding(|m|)))[32..]
  }

  // ----- updates

  lemma {:induction false} AbsorbOn(f: Compression, s: Hash, a: seq<Byte>, b: seq<Byte>)
    ensures Absorb(f, s, a + b) == Absorb(f, Absorb(f, s, a), Absorb(f, s, a).tail + b)
    decreases |a|
  {
    hide Digested;
    if |a| < 64 {
      AbsorbTail(f, s, a, a + b);
    } else {
      assert (a + b)[..64] == a[..64] && (a + b)[64..] == a[64..] + b;
      AbsorbOn(f, Digested(f, s, a[..64]), a[64..], b);
    }
  }

  lemma AbsorbTail(f: Compression, s: Hash, tail: seq<Byte>, data: seq<Byte>)
    ensures Absorb(f, s.(tail := tail), data) == Absorb(f, s, data)
  {}

  /** Any split of a message reaches the same state as one update. */
  lemma SplitUpdates(f: Compression, s: Hash, a: seq<Byte>, b: seq<Byte>)
    ensures Update(f, Update(f, s, a), b) == Update(f, s, a + b)
  {
    hide Absorb;
    Cat3(s.tail, a, b);
    AbsorbOn(f, s, s.tail + a, b);
  }

  /** After any message: the chain value of its whole blocks, their number, and the bytes beyond them. */
  lemma {:induction false} AbsorbIs(f: Compression, s: Hash, m: seq<Byte>)
    requires s.count + |m| / 64 < TWO_64
    ensures var r := Absorb(f, s, m);
            && r.count == s.count + |m| / 64 && r.tail == m[64 * (|m| / 64)..]
            && r.h == Chain(f, s.h, m[..64 * (|m| / 64)])
    decreases |m|
  {
    if |m| >= 64 {
      AbsorbIs(f, Digested(f, s, m[..64]), m[64..]);
      var k := |m| / 64;
      assert |m[64..]| / 64 == k - 1;
      assert m[64..][64 * (k - 1)..] == m[64 * k..];
      assert m[..64 * k][64..] == m[64..][..64 * (k - 1)] && m[..64 * k][..64] == m[..64];
    } else {
      assert m[..0] == [] && m[0..] == m;
    }
  }

  lemma {:induction false} ChainOn(f: Compression, h: Block, p: seq<Byte>, q: seq<Byte>)
    requires |p| % 64 == 0
    ensures Chain(f, h, p + q) == Chain(f, Chain(f, h, p), q)
    decreases |p|
  {
    if p != [] {
      assert (p + q)[..64] == p[..64] && (p + q)[64..] == p[64..] + q;
      ChainOn(f, f(h, p[..64]), p[64..], q);
    } else {
      assert p + q == q;
    }
  }

  /** The chain value once the padding is digested. */
  function Closed(f: Compression, s: Hash): Block
    requires |s.tail| < 64 && s.count + 2 < TWO_64
  {
    if |s.tail| <= 55 then f(s.h, s.tail + [0x80] + Zeros(55 - |s.tail|) + Be64(s.count + 1))
    else f(f(s.h, s.tail + [0x80] + Zeros(63 - |s.tail|)), Zeros(56) + Be64(s.count + 2))
  }

  // ----- the code

  class HashState {
    const f: Compression
    var chaining: Block
    var blockCounter1: U32
    var blockCounter2: U32
    const buffer: array<Byte>
    var bufPtr: nat

    ghost predicate Valid()
      reads this
    {
      buffer.Length == 64 && bufPtr < 64
    }

    ghost function Now(): (s: Hash)
      requires Valid()
      reads this, buffer
      ensures |s.tail| < 64
    {
      Hash(chaining, TWO_32 * blockCounter2 + blockCounter1, buffer[..bufPtr])
    }

    /** Init */
    constructor (f: Compression)
      ensures Valid() && Now() == START && this.f == f && fresh(buffer)
    {
      this.f := f;
      chaining := INITIAL;
      blockCounter1, blockCounter2, bufPtr := 0, 0, 0;
      buffer := new Byte[64](_ => 0);
    }

    /** The count of one more block: the second word when the first comes to zero. */
    method Count()
      modifies this`blockCounter1, this`blockCounter2
      ensures TWO_32 * blockCounter2 + blockCounter1 == (TWO_32 * old(blockCounter2) + old(blockCounter1) + 1) % TWO_64
    {
      blockCounter1 := Next(blockCounter1);
      if blockCounter1 == 0 {
        blockCounter2 := Next(blockCounter2);
      }
    }

    /** Transform: the whole blocks of the input. */
    method Transform(input: seq<Byte>)
      modifies this`chaining, this`blockCounter1, this`blockCounter2
      ensures var s := Absorb(f, Hash(old(chaining), TWO_32 * old(blockCounter2) + old(blockCounter1), []), input);
              chaining == s.h && TWO_32 * blockCounter2 + blockCounter1 == s.count
    {
      hide Absorb, Digested;
      ghost var goal := Absorb(f, Hash(chaining, TWO_32 * blockCounter2 + blockCounter1, []), input);
      var rest := input;
      while |rest| >= 64
        invariant goal == Absorb(f, Hash(chaining, TWO_32 * blockCounter2 + blockCounter1, []), rest)
        decreases |rest|
      {
        AbsorbBlock(f, Hash(chaining, TWO_32 * blockCounter2 + blockCounter1, []), rest);
        chaining := f(chaining, rest[..64]);
        Count();
        rest := rest[64..];
      }
      AbsorbRest(f, Hash(chaining, TWO_32 * blockCounter2 + blockCounter1, []), rest);
    }

    /** A loop that copies to the buffer. */
    method Store(data: seq<Byte>)
      requires buffer.Length == 64 && bufPtr + |data| <= 64
      modifies this`bufPtr, buffer
      ensures bufPtr == old(bufPtr) + |data| && buffer[..bufPtr] == old(buffer[..bufPtr]) + data
    {
      var index := 0;
      while index < |data|
        invariant index <= |data| && bufPtr == old(bufPtr) + index
        invariant buffer[..bufPtr] == old(buffer[..bufPtr]) + data[..index]
      {
        buffer[bufPtr] := data[index];
        bufPtr := bufPtr + 1;
        index := index + 1;
      }
    }

    /** The bulk of a message, and the rest into the empty buffer. */
    method DigestBulk(input: seq<Byte>)
      requires Valid() && bufPtr == 0
      modifies this, buffer
      ensures Valid()
      ensures Now() == Absorb(f, Hash(old(chaining), TWO_32 * old(blockCounter2) + old(blockCounter1), []), input)
    {
      hide Absorb;
      AbsorbTailIs(f, Hash(chaining, TWO_32 * blockCounter2 + blockCounter1, []), input);
      Transform(input);
      var index := |input| / 64 * 64;
      assert buffer[..0] == [];
      Store(input[index..]);
    }

    /** Update on whole bytes; the length in bytes is an int. */
    method UpdateWith(input: seq<Byte>)
      requires Valid() && |input| < 0x8000_0000
      modifies this, buffer
      ensures Valid() && Now() == Update(f, old(Now()), input)
    {
      hide Absorb;
      ghost var s := Now();
      if bufPtr != 0 {
        var index := if |input| < 64 - bufPtr then |input| else 64 - bufPtr;
        AbsorbFilled(f, s, input, index);
        Store(input[..index]);
        if bufPtr < 64 {
          return;
        }
        bufPtr := 0;
        assert buffer[..] == buffer[..64];
        AbsorbWhole(f, Hash(s.h, s.count, []), buffer[..]);
        Transform(buffer[..]);
        DigestBulk(input[index..]);
      } else {
        assert [] + input == input;
        DigestBulk(input);
      }
    }

    /** The zero-byte loops: zeros up to a place in the buffer. */
    method StoreZeros(to: nat)
      requires buffer.Length == 64 && bufPtr <= to <= 64
      modifies this`bufPtr, buffer
      ensures bufPtr == to && buffer[..to] == old(buffer[..bufPtr]) + Zeros(to - old(bufPtr))
    {
      while bufPtr < to
        invariant old(bufPtr) <= bufPtr <= to
        invariant buffer[..bufPtr] == old(buffer[..bufPtr]) + Zeros(bufPtr - old(bufPtr))
      {
        buffer[bufPtr] := 0;
        bufPtr := bufPtr + 1;
      }
    }

    /** The two loops that write the counters from the last byte down, and clear them. */
    method StoreCounters()
      requires buffer.Length == 64
      modifies this`blockCounter1, this`blockCounter2, this`bufPtr, buffer
      ensures buffer[..56] == old(buffer[..56]) && buffer[56..] == Be32(old(blockCounter2)) + Be32(old(blockCounter1))
    {
      bufPtr := 64;
      ghost var lo: nat, hi: nat := blockCounter1, blockCounter2;
      while bufPtr > 60
        invariant 60 <= bufPtr <= 64 && blockCounter1 == Shifted(lo, 64 - bufPtr) && blockCounter2 == hi
        invariant buffer[..60] == old(buffer[..60])
        invariant forall k :: bufPtr <= k < 64 ==> buffer[k] == Be32(lo)[k - 60]
      {
        ByteOf(lo, 64 - bufPtr);
        bufPtr := bufPtr - 1;
        buffer[bufPtr] := LowByte(blockCounter1);
        blockCounter1 := Shift(blockCounter1);
      }
      while bufPtr > 56
        invariant 56 <= bufPtr <= 60 && blockCounter2 == Shifted(hi, 60 - bufPtr)
        invariant buffer[..56] == old(buffer[..56])
        invariant forall k :: 60 <= k < 64 ==> buffer[k] == Be32(lo)[k - 60]
        invariant forall k :: bufPtr <= k < 60 ==> buffer[k] == Be32(hi)[k - 56]
      {
        ByteOf(hi, 60 - bufPtr);
        bufPtr := bufPtr - 1;
        buffer[bufPtr] := LowByte(blockCounter2);
        blockCounter2 := Shift(blockCounter2);
      }
      assert buffer[56..] == Be32(hi) + Be32(lo);
    }

    /** The block that carries the length. */
    method DigestLength()
      requires buffer.Length == 64 && bufPtr <= 56 && TWO_32 * blockCounter2 + blockCounter1 + 1 < TWO_64
      modifies this, buffer
      ensures chaining == f(old(chaining), old(buffer[..bufPtr]) + Zeros(56 - old(bufPtr)) +
                                           Be64(old(TWO_32 * blockCounter2 + blockCounter1) + 1))
    {
      hide Absorb, Be64, Be32, Zeros;
      StoreZeros(56);
      ghost var field := Be64(TWO_32 * blockCounter2 + blockCounter1 + 1);
      Count();
      CountBytes(blockCounter1, blockCounter2);
      StoreCounters();
      assert buffer[56..] == field;
      assert buffer[..] == buffer[..56] + buffer[56..];
      AbsorbWhole(f, Hash(chaining, TWO_32 * blockCounter2 + blockCounter1, []), buffer[..]);
      Transform(buffer[..]);
    }

    /** The block that the padding fills when no room is left for the length. */
    method DigestPadding()
      requires buffer.Length == 64 && 56 < bufPtr <= 64 && TWO_32 * blockCounter2 + blockCounter1 + 1 < TWO_64
      modifies this, buffer
      ensures chaining == f(old(chaining), old(buffer[..bufPtr]) + Zeros(64 - old(bufPtr))) && bufPtr == 0
      ensures TWO_32 * blockCounter2 + blockCounter1 == old(TWO_32 * blockCounter2 + blockCounter1) + 1
    {
      hide Absorb;
      StoreZeros(64);
      assert buffer[..] == buffer[..64];
      AbsorbWhole(f, Hash(chaining, TWO_32 * blockCounter2 + blockCounter1, []), buffer[..]);
      Transform(buffer[..]);
      bufPtr := 0;
    }

    /** The padding and its blocks: Final up to the output transformation. */
    method Pad()
      requires Valid() && TWO_32 * blockCounter2 + blockCounter1 + 2 < TWO_64
      modifies this, buffer
      ensures chaining == Closed(f, old(Now()))
    {
      hide Be64;
      Store([0x80]);
      if bufPtr > 56 {
        DigestPadding();
        assert buffer[..0] == [] && [] + Zeros(56) == Zeros(56);
      }
      DigestLength();
    }

    /** Final: the last 32 bytes of what the output transformation makes of the chain value. */
    method Final(output: Block -> Block) returns (hash: seq<Byte>)
      requires Valid() && TWO_32 * blockCounter2 + blockCounter1 + 2 < TWO_64
      modifies this, buffer
      ensures hash == output(Closed(f, old(Now())))[32..]
    {
      Pad();
      chaining := output(chaining);
      hash := chaining[32..];
    }
  }

  function LowByte(x: U32): Byte { x % 256 }
  function Shift(x: U32): U32 { x / 256 }

  function Shifted(x: nat, k: nat): nat { if k == 0 then x else Shifted(x, k - 1) / 256 }

  lemma ByteOf(x: nat, k: nat)
    requires x < TWO_32 && k < 4
    ensures Shifted(x, k) < TWO_32 && Shifted(x, k) % 256 == Be32(x)[3 - k] && Shifted(x, k + 1) == Shifted(x, k) / 256
  {
    assert Shifted(x, 1) == x / 256;
    assert Shifted(x, 2) == x / 0x1_0000;
    assert Shifted(x, 3) == x / 0x100_0000;
  }

  lemma CountBytes(lo: U32, hi: U32)
    ensures TWO_32 * hi + lo < TWO_64 && Be32(hi) + Be32(lo) == Be64(TWO_32 * hi + lo)
  {
    assert (TWO_32 * hi + lo) / TWO_32 == hi && (TWO_32 * hi + lo) % TWO_32 == lo;
  }

  function Next(x: U32): U32 { if x + 1 == TWO_32 then 0 else x + 1 }

  lemma AbsorbBlock(f: Compression, s: Hash, data: seq<Byte>)
    requires |data| >= 64
    ensures Absorb(f, s, data) == Absorb(f, Hash(f(s.h, data[..64]), (s.count + 1) % TWO_64, []), data[64..])
  {}

  lemma AbsorbRest(f: Compression, s: Hash, data: seq<Byte>)
    requires |data| < 64
    ensures Absorb(f, s, data) == s.(tail := data)
  {}

  lemma AbsorbWhole(f: Compression, s: Hash, block: seq<Byte>)
    requires |block| == 64
    ensures Absorb(f, s, block) == Hash(f(s.h, block), (s.count + 1) % TWO_64, [])
  {
    assert block[..64] == block && block[64..] == [];
  }

  /** Filling the buffer first: all of it goes in, or a whole block is digested before the rest. */
  lemma AbsorbFilled(f: Compression, s: Hash, input: seq<Byte>, index: nat)
    requires |s.tail| < 64 && index == if |input| < 64 - |s.tail| then |input| else 64 - |s.tail|
    ensures |s.tail| + index < 64 ==> input[..index] == input && Update(f, s, input) == s.(tail := s.tail + input)
    ensures |s.tail| + index == 64 ==>
              Update(f, s, input)
              == Absorb(f, Hash(f(s.h, s.tail + input[..index]), (s.count + 1) % TWO_64, []), input[index..])
  {
    var whole := s.tail + input;
    if |whole| >= 64 {
      assert whole[..64] == s.tail + input[..index] && whole[64..] == input[index..];
    }
  }

  /** What stays behind of the data. */
  lemma {:induction false} AbsorbTailIs(f: Compression, s: Hash, data: seq<Byte>)
    ensures Absorb(f, s, data).tail == data[|data| / 64 * 64..]
    decreases |data|
  {
    hide Digested;
    if |data| >= 64 {
      AbsorbTailIs(f, Digested(f, s, data[..64]), data[64..]);
      assert data[64..][|data[64..]| / 64 * 64..] == data[|data| / 64 * 64..];
    } else {
      assert data[0..] == data;
    }
  }

  lemma ChainOne(f: Compression, h: Block, block: seq<Byte>)
    requires |block| == 64
    ensures Chain(f, h, block) == f(h, block)
  {
    assert block[..64] == block && block[64..] == [];
  }

  lemma OneMoreBlock(f: Compression, h: Block, tail: seq<Byte>, n: nat)
    requires |tail| == n % 64 <= 55 && Blocks(n) < TWO_64
    ensures Chain(f, h, tail + Padding(n)) == f(h, tail + [0x80] + Zeros(55 - |tail|) + Be64(Blocks(n)))
  {
    hide Be64;
    var p := tail + Padding(n);
    assert p == tail + [0x80] + Zeros(55 - |tail|) + Be64(Blocks(n));
    ChainOne(f, h, p);
  }

  lemma TwoMoreBlocks(f: Compression, h: Block, tail: seq<Byte>, n: nat)
    requires |tail| == n % 64 > 55 && Blocks(n) < TWO_64
    ensures Chain(f, h, tail + Padding(n)) == f(f(h, tail + [0x80] + Zeros(63 - |tail|)), Zeros(56) + Be64(Blocks(n)))
  {
    hide Be64, Chain;
    var one, two := tail + [0x80] + Zeros(63 - |tail|), Zeros(56) + Be64(Blocks(n));
    assert tail + Padding(n) == one + two;
    ChainOn(f, h, one, two);
    ChainOne(f, h, one);
    ChainOne(f, f(h, one), two);
  }

  /** What Final digests after the message m is the padding by its definition. */
  lemma ClosedIs(f: Compression, m: seq<Byte>)
    requires Blocks(|m|) + 1 < TWO_64
    ensures var s := Update(f, START, m);
            s.count + 2 < TWO_64 && |s.tail| < 64 && Closed(f, s) == Chain(f, INITIAL, m + Padding(|m|))
  {
    hide Be64, Absorb, Chain;
    assert [] + m == m;
    AbsorbIs(f, START, m);
    var k := |m| / 64;
    var s, tail, len := Update(f, START, m), m[64 * k..], Be64(Blocks(|m|));
    ChainOn(f, INITIAL, m[..64 * k], tail + Padding(|m|));
    assert m[..64 * k] + (tail + Padding(|m|)) == m + Padding(|m|);
    if |tail| <= 55 {
      OneMoreBlock(f, s.h, tail, |m|);
    } else {
      TwoMoreBlocks(f, s.h, tail, |m|);
    }
  }

  /** groestl: the definition's hash, the length field holding the number of blocks of the padded message. */
  method HashBytes(f: Compression, output: Block -> Block, data: seq<Byte>) returns (hash: seq<Byte>)
    requires |data| < 0x8000_0000
    ensures hash == HashOf(f, output, data)
  {
    hide Update, Closed, Chain, Padding;
    var context := new HashState(f);
    context.UpdateWith(data);
    ClosedIs(f, data);
    hash := context.Final(output);
  }
}
