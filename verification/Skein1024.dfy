/** The Skein-1024 block (CryptoNight/skein.cpp) in its looping form, where key and tweak words share one
    array, against the Threefish key schedule of section 3.3.2 of the Skein 1.3 specification. The four
    rounds between two subkeys are an arbitrary function. */
module Skein1024 {
  type Words = w: seq<bv64> | |w| == 16 witness seq(16, _ => 0)
  type Key = k: seq<bv64> | |k| == 17 witness seq(17, _ => 0)
  type Tweak = t: seq<bv64> | |t| == 3 witness [0, 0, 0]

  /** Four rounds: rotation constants 0 to 3, or 4 to 7. */
  type Rounds = (Words, nat) -> Words

  const PARITY: bv64 := 0x1BD1_1BDA_A9FC_1A22
  const FIRST: bv64 := 0x4000_0000_0000_0000

  // ----- the definition

  function KeyParity(x: Words): bv64 {
    x[0] ^ x[1] ^ x[2] ^ x[3] ^ x[4] ^ x[5] ^ x[6] ^ x[7] ^
    x[8] ^ x[9] ^ x[10] ^ x[11] ^ x[12] ^ x[13] ^ x[14] ^ x[15] ^ PARITY
  }

  function ExtendedKey(x: Words): Key { x + [KeyParity(x)] }
  function TweakParity(t0: bv64, t1: bv64): bv64 { t0 ^ t1 }
  function ExtendedTweak(t0: bv64, t1: bv64): Tweak { [t0, t1, TweakParity(t0, t1)] }

  function Mod17(n: nat): (m: nat)
    ensures m < 17
  {
    n % 17
  }

  function Mod3(n: nat): (m: nat)
    ensures m < 3
  {
    n % 3
  }

  function Number(s: nat): bv64
    requires s <= 20
  {
    s as bv64
  }

  /** Addition of words, modulo 2^64. */
  function Sum(a: bv64, b: bv64): bv64 { a + b }

  /** Word i of subkey s. */
  function SubkeyWord(key: Key, tweak: Tweak, s: nat, i: nat): bv64
    requires s <= 20 && i < 16
  {
    var k := key[Mod17(s + i)];
    if i == 13 then Sum(k, tweak[Mod3(s)])
    else if i == 14 then Sum(k, tweak[Mod3(s + 1)])
    else if i == 15 then Sum(k, Number(s))
    else k
  }

  function Subkey(key: Key, tweak: Tweak, s: nat): Words
    requires s <= 20
  {
    seq(16, i requires 0 <= i < 16 => SubkeyWord(key, tweak, s, i))
  }

  function Plus(x: Words, y: Words): Words { seq(16, i requires 0 <= i < 16 => Sum(x[i], y[i])) }
  function Xor(x: Words, y: Words): Words { seq(16, i requires 0 <= i < 16 => x[i] ^ y[i]) }

  /** The state after subkey s is added. */
  function Threefish(rounds: Rounds, key: Key, tweak: Tweak, w: Words, s: nat): Words
    requires s <= 20
  {
    if s == 0 then Plus(w, Subkey(key, tweak, 0))
    else Plus(rounds(Threefish(rounds, key, tweak, w, s - 1), (s - 1) % 2), Subkey(key, tweak, s))
  }

  function NoFirst(t1: bv64): bv64 { t1 & !FIRST }

  datatype State = State(x: Words, t0: bv64, t1: bv64)

  /** One block: position advanced, cipher keyed by the chain value, plain text xored on, first flag cleared. */
  function OneBlock(rounds: Rounds, s: State, w: Words, add: bv64): State {
    var t0 := Sum(s.t0, add);
    State(Xor(Threefish(rounds, ExtendedKey(s.x), ExtendedTweak(t0, s.t1), w, 20), w), t0, NoFirst(s.t1))
  }

  function AllBlocks(rounds: Rounds, s: State, blocks: seq<Words>, add: bv64): State {
    if blocks == [] then s
    else OneBlock(rounds, AllBlocks(rounds, s, blocks[..|blocks| - 1], add), blocks[|blocks| - 1], add)
  }

  // ----- the sliding windows

  const KW_KEY_BASE := 3

  /** Before subkey k is added: key words k-1 to k+15 and tweak words k-1 to k+1 are in place. */
  ghost predicate Window(kw: seq<bv64>, k: nat, key: Key, tweak: Tweak) {
    && |kw| == 40 && 1 <= k <= 21
    && (forall j :: k - 1 <= j <= k + 15 ==> kw[KW_KEY_BASE + j] == key[Mod17(j)])
    && (forall i :: k - 1 <= i <= k + 1 ==> kw[i] == tweak[Mod3(i)])
  }

  lemma Wrap17(k: nat)
    requires k >= 1
    ensures Mod17(k + 16) == Mod17(k - 1)
  {}

  lemma Wrap3(k: nat)
    requires k >= 1
    ensures Mod3(k + 2) == Mod3(k - 1)
  {}

  /** The two writes after an addition move both windows on: the tweak word overwrites the key word that has
      just been copied and is needed no more. */
  lemma WindowMoves(kw: seq<bv64>, k: nat, key: Key, tweak: Tweak)
    requires Window(kw, k, key, tweak) && k <= 20
    ensures Window(kw[KW_KEY_BASE + k + 16 := kw[KW_KEY_BASE + k - 1]][k + 2 := kw[k - 1]], k + 1, key, tweak)
  {
    hide Mod17, Mod3;
    Wrap17(k);
    Wrap3(k);
    assert kw[KW_KEY_BASE + (k - 1)] == key[Mod17(k - 1)];
  }

  lemma KeyInWindow(kw: seq<bv64>, k: nat, key: Key, tweak: Tweak, j: nat)
    requires Window(kw, k, key, tweak) && k - 1 <= j <= k + 15
    ensures |kw| == 40 && j <= 36 && kw[KW_KEY_BASE + j] == key[Mod17(j)]
  {
    hide Mod17, Mod3;
  }

  lemma TweakInWindow(kw: seq<bv64>, k: nat, key: Key, tweak: Tweak)
    requires Window(kw, k, key, tweak)
    ensures |kw| == 40 && 1 <= k <= 21 && kw[k] == tweak[Mod3(k)] && kw[k + 1] == tweak[Mod3(k + 1)]
  {
    hide Mod17, Mod3;
  }

  /** What the macro adds to word i. */
  function Added(kw: seq<bv64>, k: nat, i: nat): bv64
    requires |kw| == 40 && 1 <= k <= 20 && i < 16
  {
    if i == 13 then Sum(kw[KW_KEY_BASE + k + i], kw[k])
    else if i == 14 then Sum(kw[KW_KEY_BASE + k + i], kw[k + 1])
    else if i == 15 then Sum(kw[KW_KEY_BASE + k + i], Number(k))
    else kw[KW_KEY_BASE + k + i]
  }

  /** The words read when subkey k is added are its words. */
  lemma SubkeyInWindow(kw: seq<bv64>, k: nat, key: Key, tweak: Tweak, i: nat)
    requires Window(kw, k, key, tweak) && k <= 20 && i < 16
    ensures |kw| == 40 && Subkey(key, tweak, k)[i] == Added(kw, k, i)
  {
    hide Mod17, Mod3, Number, Window, Sum;
    KeyInWindow(kw, k, key, tweak, k + i);
    TweakInWindow(kw, k, key, tweak);
    assert Subkey(key, tweak, k)[i] == SubkeyWord(key, tweak, k, i);
  }

  // ----- the code

  /** The additions of I1024 with k = r + R. */
  method AddSubkey(x: array<bv64>, kw: array<bv64>, k: nat, ghost key: Key, ghost tweak: Tweak)
    requires x.Length == 16 && x != kw && kw.Length == 40 && 1 <= k <= 20 && Window(kw[..], k, key, tweak)
    modifies x
    ensures x[..] == Plus(old(x[..]), Subkey(key, tweak, k))
  {
    hide Added, Window, Subkey, Sum;
    ghost var sub := Subkey(key, tweak, k);
    for i := 0 to 16
      invariant forall j :: 0 <= j < 16 ==> x[j] == if j < i then Sum(old(x[j]), sub[j]) else old(x[j])
    {
      SubkeyInWindow(kw[..], k, key, tweak, i);
      x[i] := Sum(x[i], Added(kw[..], k, i));
    }
  }

  /** I1024: one subkey is added, then the two windows slide. */
  method Inject(x: array<bv64>, kw: array<bv64>, k: nat, ghost key: Key, ghost tweak: Tweak)
    requires x.Length == 16 && x != kw && kw.Length == 40 && 1 <= k <= 20 && Window(kw[..], k, key, tweak)
    modifies x, kw
    ensures x[..] == Plus(old(x[..]), Subkey(key, tweak, k))
    ensures Window(kw[..], k + 1, key, tweak) && kw[0] == old(kw[0]) && kw[1] == old(kw[1])
  {
    hide Window, Subkey;
    AddSubkey(x, kw, k, key, tweak);
    WindowMoves(kw[..], k, key, tweak);
    kw[KW_KEY_BASE + k + 16] := kw[KW_KEY_BASE + k - 1];
    kw[k + 2] := kw[k - 1];
  }

  /** ks and ts are set up, the key from the chain value. */
  method SetUp(kw: array<bv64>, x: Words)
    requires kw.Length == 40
    modifies kw
    ensures Window(kw[..], 1, ExtendedKey(x), ExtendedTweak(kw[0], kw[1])) && kw[0] == old(kw[0]) && kw[1] == old(kw[1])
  {
    hide KeyParity, TweakParity, Window;
    ghost var t0, t1 := kw[0], kw[1];
    for i := 0 to 16
      invariant forall j :: 0 <= j < i ==> kw[KW_KEY_BASE + j] == x[j]
      invariant kw[0] == t0 && kw[1] == t1
    {
      kw[KW_KEY_BASE + i] := x[i];
    }
    kw[KW_KEY_BASE + 16] := KeyParity(x);
    kw[2] := TweakParity(kw[0], kw[1]);
    SetUpIs(kw[..], x);
  }

  lemma SetUpIs(kw: seq<bv64>, x: Words)
    requires |kw| == 40 && kw[KW_KEY_BASE + 16] == KeyParity(x) && kw[2] == TweakParity(kw[0], kw[1])
    requires forall j :: 0 <= j < 16 ==> kw[KW_KEY_BASE + j] == x[j]
    ensures Window(kw, 1, ExtendedKey(x), ExtendedTweak(kw[0], kw[1]))
  {
    SmallMods();
    hide KeyParity, Mod17, Mod3, TweakParity;
  }

  lemma SmallMods()
    ensures forall j :: 0 <= j <= 16 ==> Mod17(j) == j
    ensures forall i :: 0 <= i <= 2 ==> Mod3(i) == i
  {}

  class Context {
    const rounds: Rounds
    var x: Words
    var t0: bv64
    var t1: bv64

    ghost function Now(): State
      reads this
    {
      State(x, t0, t1)
    }

    constructor (rounds: Rounds, x: Words, t0: bv64, t1: bv64)
      ensures Now() == State(x, t0, t1) && this.rounds == rounds
    {
      this.rounds := rounds;
      this.x, this.t0, this.t1 := x, t0, t1;
    }

    /** Skein1024_Process_Block. */
    method ProcessBlocks(blocks: seq<Words>, byteCntAdd: bv64)
      requires blocks != []
      modifies this
      ensures Now() == AllBlocks(rounds, old(Now()), blocks, byteCntAdd)
    {
      hide OneBlock;
      ghost var s := Now();
      var kw := new bv64[40](_ => 0);
      kw[0] := t0;
      kw[1] := t1;
      var done := 0;
      assert blocks[..0] == [];
      while done < |blocks|
        invariant done <= |blocks|
        invariant AllBlocks(rounds, s, blocks[..done], byteCntAdd) == State(x, kw[0], kw[1])
      {
        NextBlock(rounds, s, blocks, byteCntAdd, done);
        ProcessOne(kw, blocks[done], byteCntAdd);
        done := done + 1;
      }
      assert blocks[..done] == blocks;
      t0 := kw[0];
      t1 := kw[1];
    }

    /** One turn of the loop: ts[0] and ts[1] carry the tweak on. */
    method ProcessOne(kw: array<bv64>, w: Words, byteCntAdd: bv64)
      requires kw.Length == 40
      modifies kw, this`x
      ensures State(x, kw[0], kw[1]) == OneBlock(rounds, State(old(x), old(kw[0]), old(kw[1])), w, byteCntAdd)
    {
      hide Threefish, ExtendedKey, ExtendedTweak, Window, Xor, Plus, Sum, NoFirst;
      kw[0] := Sum(kw[0], byteCntAdd);
      SetUp(kw, x);
      var y := Encrypt(kw, w, x);
      x := Xor(y, w);
      kw[1] := NoFirst(kw[1]);
    }

    /** The 80 rounds and 21 subkeys of one block. */
    method Encrypt(kw: array<bv64>, w: Words, ghost x: Words) returns (y: Words)
      requires kw.Length == 40 && Window(kw[..], 1, ExtendedKey(x), ExtendedTweak(kw[0], kw[1]))
      modifies kw
      ensures kw[0] == old(kw[0]) && kw[1] == old(kw[1])
      ensures y == Threefish(rounds, ExtendedKey(x), ExtendedTweak(kw[0], kw[1]), w, 20)
    {
      hide ExtendedKey, ExtendedTweak, Window, Plus, Subkey, Added;
      ghost var key, tweak := ExtendedKey(x), ExtendedTweak(kw[0], kw[1]);
      var regs := FirstSubkey(kw, w, key, tweak);
      var r := 1;
      while r <= 20
        invariant 1 <= r <= 21 && r % 2 == 1 && fresh(regs) && regs.Length == 16 && regs != kw
        invariant Window(kw[..], r, key, tweak) && kw[0] == old(kw[0]) && kw[1] == old(kw[1])
        invariant regs[..] == Threefish(rounds, key, tweak, w, r - 1)
      {
        Copy(regs, rounds(regs[..], 0));
        Inject(regs, kw, r, key, tweak);
        Copy(regs, rounds(regs[..], 1));
        Inject(regs, kw, r + 1, key, tweak);
        r := r + 2;
      }
      y := regs[..];
    }
  }

  lemma NextBlock(rounds: Rounds, s: State, blocks: seq<Words>, add: bv64, done: nat)
    requires done < |blocks|
    ensures AllBlocks(rounds, s, blocks[..done + 1], add)
         == OneBlock(rounds, AllBlocks(rounds, s, blocks[..done], add), blocks[done], add)
  {
    hide OneBlock;
    assert blocks[..done + 1][..done] == blocks[..done];
  }

  /** The first addition, where no window has moved. */
  method FirstSubkey(kw: array<bv64>, w: Words, ghost key: Key, ghost tweak: Tweak) returns (x: array<bv64>)
    requires kw.Length == 40 && Window(kw[..], 1, key, tweak)
    ensures fresh(x) && x.Length == 16 && x[..] == Plus(w, Subkey(key, tweak, 0))
  {
    hide Subkey, Window, Sum, FirstAdded;
    x := new bv64[16](_ => 0);
    ghost var sub := Subkey(key, tweak, 0);
    for i := 0 to 16
      invariant forall j :: 0 <= j < i ==> x[j] == Sum(w[j], sub[j])
    {
      FirstInWindow(kw[..], key, tweak, i);
      x[i] := Sum(w[i], FirstAdded(kw[..], i));
    }
  }

  lemma FirstInWindow(kw: seq<bv64>, key: Key, tweak: Tweak, i: nat)
    requires Window(kw, 1, key, tweak) && i < 16
    ensures |kw| == 40 && Subkey(key, tweak, 0)[i] == FirstAdded(kw, i)
  {
    hide Mod17, Mod3, Number, Sum, Window;
    KeyInWindow(kw, 1, key, tweak, i);
    FirstTweak(kw, key, tweak);
    SumZero(key[Mod17(15)]);
    assert Subkey(key, tweak, 0)[i] == SubkeyWord(key, tweak, 0, i);
  }

  lemma FirstTweak(kw: seq<bv64>, key: Key, tweak: Tweak)
    requires Window(kw, 1, key, tweak)
    ensures |kw| == 40 && kw[0] == tweak[Mod3(0)] && kw[1] == tweak[Mod3(1)]
  {
    hide Mod17, Mod3;
  }

  lemma SumZero(a: bv64)
    ensures Sum(a, Number(0)) == a
  {
    assert Number(0) == 0;
  }

  /** What is added first to word i of the input. */
  function FirstAdded(kw: seq<bv64>, i: nat): bv64
    requires |kw| == 40 && i < 16
  {
    if i == 13 then Sum(kw[KW_KEY_BASE + i], kw[0])
    else if i == 14 then Sum(kw[KW_KEY_BASE + i], kw[1])
    else kw[KW_KEY_BASE + i]
  }

  method Copy(x: array<bv64>, y: Words)
    requires x.Length == 16
    modifies x
    ensures x[..] == y
  {
    for i := 0 to 16
      invariant forall j :: 0 <= j < i ==> x[j] == y[j]
    {
      x[i] := y[i];
    }
  }
}
