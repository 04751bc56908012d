/** The hash definitions on messages of up to one block or two, with every constant spelled out (blake256.cpp,
    groestl.cpp, skein.cpp and keccak.cpp in CryptoNight): which bytes, counters and flags reach the compression
    functions. */
module HashCases {
  import opened Bytes
  import Blake256
  import Groestl
  import Keccak
  import Skein1024
  import Skein512

  lemma BigEndian()
    ensures Be32(0x0a0b_0c0d) == [0x0a, 0x0b, 0x0c, 0x0d]
    ensures Be64(0x0102_0304_0506_0708) == [1, 2, 3, 4, 5, 6, 7, 8]
  {
    assert Be32(0x0102_0304) == [1, 2, 3, 4] && Be32(0x0506_0708) == [5, 6, 7, 8];
  }

  // ----- BLAKE-256

  /** The initial words are the first 32 bits of the fractions of the square roots of the first eight primes. */
  lemma RootFraction(i: nat)
    requires i < 8
    ensures var p := [2, 3, 5, 7, 11, 13, 17, 19][i];
            var whole := [1, 1, 2, 2, 3, 3, 4, 4][i];
            var root := whole * TWO_32 + Blake256.INITIAL[i];
            root * root <= p * TWO_64 < (root + 1) * (root + 1)
  {
    if i == 0 {} else if i == 1 {} else if i == 2 {} else if i == 3 {}
    else if i == 4 {} else if i == 5 {} else if i == 6 {} else {}
  }

  /** Up to 54 bytes: one block, a one bit, zeros, a one bit, the length in bits. */
  lemma BlakeShort(f: Blake256.Compression, m: seq<Byte>)
    requires |m| <= 54
    ensures var bits := 8 * |m|;
            var block := m + [0x80] + Zeros(54 - |m|) + [0x01] + [0, 0, 0, 0, 0, 0, bits / 256, bits % 256];
            var h := f(Blake256.INITIAL, block, bits);
            Blake256.Blake(f, m, Blake256.PA, Blake256.PB)
            == Be32(h[0]) + Be32(h[1]) + Be32(h[2]) + Be32(h[3]) + Be32(h[4]) + Be32(h[5]) + Be32(h[6]) + Be32(h[7])
  {
    var bits := 8 * |m|;
    var block := m + [0x80] + Zeros(54 - |m|) + [0x01] + [0, 0, 0, 0, 0, 0, bits / 256, bits % 256];
    assert Be64(bits) == [0, 0, 0, 0, 0, 0, bits / 256, bits % 256];
    hide Be64, Be32;
    assert Blake256.Gap(|m|) == 55 - |m|;
    var p := Blake256.Padded(m, Blake256.PA, Blake256.PB);
    assert p == block;
    assert Blake256.BlockAt(p, 0) == block;
    assert Blake256.ChainAfter(f, p, |m|, 0) == Blake256.INITIAL;
  }

  /** Fifty-five bytes: the two one bits meet in a byte. */
  lemma BlakeFull(f: Blake256.Compression, m: seq<Byte>)
    requires |m| == 55
    ensures Blake256.Padded(m, Blake256.PA, Blake256.PB) == m + [0x81] + [0, 0, 0, 0, 0, 0, 1, 0xb8]
  {
    assert Be64(440) == [0, 0, 0, 0, 0, 0, 1, 0xb8];
  }

  lemma HmacWithoutKey(f: Blake256.Compression, text: seq<Byte>)
    requires 8 * (64 + |text|) < TWO_64
    ensures Blake256.Hmac(f, [], text)
         == Blake256.Blake(f, seq(64, _ => 0x5c) + Blake256.Blake(f, seq(64, _ => 0x36) + text, 0x81, 0x01), 0x81, 0x01)
  {
    hide Blake256.Blake;
    var none: seq<Byte> := [];
    assert none + Zeros(64) == Zeros(64);
    Blake256.XorZero(0x5c);
    Blake256.XorZero(0x36);
    hide Blake256.Xor;
    assert Blake256.XorAll(Zeros(64), 0x5c) == seq(64, _ => 0x5c);
    assert Blake256.XorAll(Zeros(64), 0x36) == seq(64, _ => 0x36);
  }

  // ----- Groestl-256

  /** Up to 55 bytes: one block, a one bit, zeros, one as the number of blocks. */
  lemma GroestlShort(f: Groestl.Compression, output: Groestl.Block -> Groestl.Block, m: seq<Byte>)
    requires |m| <= 55
    ensures Groestl.HashOf(f, output, m)
         == output(f(Zeros(62) + [1, 0], m + [0x80] + Zeros(55 - |m|) + [0, 0, 0, 0, 0, 0, 0, 1]))[32..]
  {
    assert Be64(1) == [0, 0, 0, 0, 0, 0, 0, 1];
    hide Be64;
    var block := m + [0x80] + Zeros(55 - |m|) + [0, 0, 0, 0, 0, 0, 0, 1];
    assert m + Groestl.Padding(|m|) == block;
    Groestl.ChainOne(f, Groestl.INITIAL, block);
  }

  // ----- Skein-512

  /** Up to 64 bytes: one block that is first and final, filled up with zeros. */
  lemma SkeinShort(f: Skein512.Compression, iv: Skein512.Block, m: seq<Byte>)
    requires |m| <= 64
    ensures Skein512.Ubi(f, iv, 0, true, m) == f(iv, |m|, 0xf000_0000_0000_0000, m + Zeros(64 - |m|))
  {}

  /** Up to 128 bytes: a first block and a final one. */
  lemma SkeinTwo(f: Skein512.Compression, iv: Skein512.Block, m: seq<Byte>)
    requires 64 < |m| <= 128
    ensures Skein512.Ubi(f, iv, 0, true, m)
         == f(f(iv, 64, 0x7000_0000_0000_0000, m[..64]), |m|, 0xb000_0000_0000_0000, m[64..] + Zeros(128 - |m|))
  {}

  /** Thirty-two bytes of output: the front of one block that enciphers a zero counter. */
  lemma SkeinOutput(f: Skein512.Compression, x: Skein512.Block)
    ensures Skein512.Output(f, x, 32) == f(x, 8, 0xff00_0000_0000_0000, Zeros(64))[..32]
    ensures Skein512.Le(0x0a0b, 8) == [0x0b, 0x0a, 0, 0, 0, 0, 0, 0]
  {
    LeOfZero(8);
    LeOfZero(6);
    assert Zeros(8) + Zeros(56) == Zeros(64);
    assert Skein512.Le(0x0a, 7) == [0x0a] + Zeros(6);
  }

  lemma {:induction false} LeOfZero(n: nat)
    ensures Skein512.Le(0, n) == Zeros(n)
  {
    if n > 0 { LeOfZero(n - 1); }
  }

  // ----- Keccak

  function Two(a: bv64, b: bv64): bv64 { a ^ b }
  function Five(a: bv64, b: bv64, c: bv64, d: bv64, e: bv64): bv64 { a ^ b ^ c ^ d ^ e }

  lemma Sums(a: bv64, b: bv64, c: bv64, d: bv64, e: bv64)
    ensures Keccak.Xor(a, b) == Two(a, b) && Keccak.Sum(a, b, c, d, e) == Five(a, b, c, d, e)
  {}

  lemma Turned()
    ensures Keccak.Rotl(0x8000_0000_0000_0001, 1) == 3 && Keccak.Rotl(0x0123_4567_89ab_cdef, 8) == 0x2345_6789_abcd_ef01
  {}

  /** A lane, five lanes of the column before it, and five lanes of the column behind it turned by one. */
  lemma ThetaAt(a: Keccak.State, x: nat, y: nat)
    requires x < 5 && y < 5
    ensures var p, q := (x + 4) % 5, (x + 1) % 5;
            Keccak.Theta(a)[x + 5 * y]
            == Two(a[x + 5 * y], Two(Five(a[p], a[p + 5], a[p + 10], a[p + 15], a[p + 20]),
                                     Keccak.Rotl(Five(a[q], a[q + 5], a[q + 10], a[q + 15], a[q + 20]), 1)))
  {
    hide Keccak.Xor, Keccak.Sum, Keccak.Rotl, Two, Five;
    ColumnOf(x, y);
    hide Keccak.Column;
    var p, q := (x + 4) % 5, (x + 1) % 5;
    Sums(a[p], a[p + 5], a[p + 10], a[p + 15], a[p + 20]);
    Sums(a[q], a[q + 5], a[q + 10], a[q + 15], a[q + 20]);
    var before := Five(a[p], a[p + 5], a[p + 10], a[p + 15], a[p + 20]);
    var behind := Keccak.Rotl(Five(a[q], a[q + 5], a[q + 10], a[q + 15], a[q + 20]), 1);
    Sums(before, behind, 0, 0, 0);
    Sums(a[x + 5 * y], Two(before, behind), 0, 0, 0);
  }

  lemma ColumnOf(x: nat, y: nat)
    requires x < 5 && y < 5
    ensures Keccak.Column(x + 5 * y) == x
  {}

  /** Chi: a lane, and the next but one where the next has no bit. */
  lemma ChiAt(a: Keccak.State, x: nat, y: nat)
    requires x < 5 && y < 5
    ensures Keccak.Chi(a)[5 * y + x] == a[5 * y + x] ^ (!a[5 * y + (x + 1) % 5] & a[5 * y + (x + 2) % 5])
  {
    Keccak.ChiIs(a, x, y);
  }

  /** The lowest byte of a word comes first. */
  lemma KeccakWord()
    ensures Keccak.Word([1, 2, 3, 4, 5, 6, 7, 8]) == 0x0807_0605_0403_0201
  {}

  lemma KeccakBytes()
    ensures Keccak.WordByte(0x0807_0605_0403_0201, 0) == 1 && Keccak.WordByte(0x0807_0605_0403_0201, 7) == 8
  {}

  /** Up to 134 bytes, 32 bytes of digest: one block, padded by 0x01, zeros and 0x80. */
  lemma KeccakShort(m: seq<bv8>)
    requires |m| <= 134
    ensures Keccak.RateOf(32) == Keccak.RateOf(200) == 136
    ensures var block := m + [0x01] + seq(134 - |m|, _ => 0) + [0x80];
            Keccak.Sponge(m, 136, 32) == Keccak.Bytes(Keccak.Rounds(Keccak.Xored(seq(25, _ => 0), block), 24))[..32]
  {
    hide Keccak.Rounds, Keccak.Xored, Keccak.Bytes;
    var block := m + [0x01] + seq(134 - |m|, _ => 0) + [0x80];
    assert Keccak.Padded(m, 136) == block;
    assert block[..136] == block && block[136..] == [];
    var a := Keccak.Rounds(Keccak.Xored(seq(25, _ => 0), block), 24);
    assert Keccak.Absorb(a, [], 136) == a;
  }

  // ----- Skein-1024

  /** Word `i` of subkey `s`: a word of the chain value, or their sum with the constant of section 3.3.2 of the Skein
      specification, and a word of the tweak or the number of the subkey added. */
  lemma SubkeyAt(x: Skein1024.Words, t0: bv64, t1: bv64, s: nat, i: nat)
    requires s <= 20 && i < 16
    ensures Skein1024.PARITY == 0x1BD1_1BDA_A9FC_1A22
    ensures var k := if (s + i) % 17 == 16 then Skein1024.KeyParity(x) else x[(s + i) % 17];
            var tweak := [t0, t1, Two(t0, t1)];
            Skein1024.Subkey(Skein1024.ExtendedKey(x), Skein1024.ExtendedTweak(t0, t1), s)[i]
            == if i == 13 then Skein1024.Sum(k, tweak[s % 3])
               else if i == 14 then Skein1024.Sum(k, tweak[(s + 1) % 3])
               else if i == 15 then Skein1024.Sum(k, s as bv64)
               else k
  {
    hide Skein1024.KeyParity, Skein1024.Sum, Two, Skein1024.TweakParity;
    TweakSum(t0, t1);
  }

  lemma TweakSum(t0: bv64, t1: bv64)
    ensures Skein1024.TweakParity(t0, t1) == Two(t0, t1)
  {}
}
