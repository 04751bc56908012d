/** The AES block cipher of CryptoNight/oaes_lib.c: key expansion, encryption and decryption of
    one block, against the definitions of FIPS 197. */
module OaesBlock {
  import opened OaesTables

  type Block = s: seq<bv8> | |s| == 16 witness seq(16, _ => 0)
  type Word = s: seq<bv8> | |s| == 4 witness [0, 0, 0, 0]

  // ----- the transformations (sections 5.1 and 5.3 of FIPS 197)

  function SubBytes(s: Block): Block { seq(16, i requires 0 <= i < 16 => SubByte(s[i])) }
  function InvSubBytes(s: Block): Block { seq(16, i requires 0 <= i < 16 => InvSubByte(s[i])) }

  /** Row r = i mod 4 of column c = i / 4 comes from column c + r. */
  function ShiftRows(s: Block): Block { seq(16, i requires 0 <= i < 16 => s[i % 4 + 4 * ((i / 4 + i % 4) % 4)]) }
  function InvShiftRows(s: Block): Block { seq(16, i requires 0 <= i < 16 => s[i % 4 + 4 * ((i / 4 + 4 - i % 4) % 4)]) }

  function AddRoundKey(s: Block, k: Block): Block { seq(16, i requires 0 <= i < 16 => s[i] ^ k[i]) }

  function Lane(a: bv8, b: bv8, c: bv8, d: bv8): bv8 { GfMul(a, 0x02) ^ GfMul(b, 0x03) ^ c ^ d }
  function InvLane(a: bv8, b: bv8, c: bv8, d: bv8): bv8 {
    GfMul(a, 0x0e) ^ GfMul(b, 0x0b) ^ GfMul(c, 0x0d) ^ GfMul(d, 0x09)
  }

  function MixWord(w: Word): Word {
    [Lane(w[0], w[1], w[2], w[3]), Lane(w[1], w[2], w[3], w[0]),
     Lane(w[2], w[3], w[0], w[1]), Lane(w[3], w[0], w[1], w[2])]
  }

  function InvMixWord(w: Word): Word {
    [InvLane(w[0], w[1], w[2], w[3]), InvLane(w[1], w[2], w[3], w[0]),
     InvLane(w[2], w[3], w[0], w[1]), InvLane(w[3], w[0], w[1], w[2])]
  }

  function Join(a: Word, b: Word, c: Word, d: Word): Block { a + b + c + d }
  function Column(s: Block, c: nat): Word
    requires c < 4
  {
    s[4 * c..4 * c + 4]
  }

  function MixColumns(s: Block): Block {
    Join(MixWord(Column(s, 0)), MixWord(Column(s, 1)), MixWord(Column(s, 2)), MixWord(Column(s, 3)))
  }

  function InvMixColumns(s: Block): Block {
    Join(InvMixWord(Column(s, 0)), InvMixWord(Column(s, 1)), InvMixWord(Column(s, 2)), InvMixWord(Column(s, 3)))
  }

  function RoundKey(w: seq<bv8>, r: nat): Block
    requires 16 * r + 16 <= |w|
  {
    w[16 * r..16 * r + 16]
  }

  /** The state after round `r` of the cipher, the last round excepted. */
  function Forward(s: Block, w: seq<bv8>, r: nat): Block
    requires 16 * r + 16 <= |w|
  {
    if r == 0 then AddRoundKey(s, RoundKey(w, 0))
    else AddRoundKey(MixColumns(ShiftRows(SubBytes(Forward(s, w, r - 1)))), RoundKey(w, r))
  }

  /** The cipher with `n` round keys: the last round mixes no columns. */
  function Cipher(s: Block, w: seq<bv8>, n: nat): Block
    requires n >= 2 && |w| == 16 * n
  {
    AddRoundKey(ShiftRows(SubBytes(Forward(s, w, n - 2))), RoundKey(w, n - 1))
  }

  /** The inverse cipher once the rounds down to `r` are undone. */
  function Backward(s: Block, w: seq<bv8>, n: nat, r: nat): Block
    requires n >= 2 && |w| == 16 * n && 1 <= r < n
    decreases n - r
  {
    if r == n - 1 then AddRoundKey(s, RoundKey(w, n - 1))
    else InvMixColumns(AddRoundKey(InvSubBytes(InvShiftRows(Backward(s, w, n, r + 1))), RoundKey(w, r)))
  }

  function InvCipher(s: Block, w: seq<bv8>, n: nat): Block
    requires n >= 2 && |w| == 16 * n
  {
    AddRoundKey(InvSubBytes(InvShiftRows(Backward(s, w, n, 1))), RoundKey(w, 0))
  }

  // ----- each transformation has its inverse

  // Multiplication by x as shifts, without a case distinction, lets the solver see which sums cancel. It is
  // written out in each lemma, since the cancelling only happens between sums that name no function.

  lemma XTimeIsShifts(x: bv8)
    ensures XTime(x) == (x << 1) ^ (x >> 7) ^ ((x >> 7) << 1) ^ ((x >> 7) << 3) ^ ((x >> 7) << 4)
  {
    if x & 0x80 != 0 {} else {}
  }

  lemma Times14(x: bv8)
    ensures var x2 := (x << 1) ^ (x >> 7) ^ ((x >> 7) << 1) ^ ((x >> 7) << 3) ^ ((x >> 7) << 4);
            var x4 := (x2 << 1) ^ (x2 >> 7) ^ ((x2 >> 7) << 1) ^ ((x2 >> 7) << 3) ^ ((x2 >> 7) << 4);
            var x8 := (x4 << 1) ^ (x4 >> 7) ^ ((x4 >> 7) << 1) ^ ((x4 >> 7) << 3) ^ ((x4 >> 7) << 4);
            GfMul(x, 0x0e) == x8 ^ x4 ^ x2
  {
    hide XTime, GfMul;
    TablesHoldProducts(x);
    XTimeIsShifts(x);
    XTimeIsShifts(XTime(x));
    XTimeIsShifts(XTime(XTime(x)));
  }

  lemma Times14OfLane(a: bv8, b: bv8, c: bv8, d: bv8)
    ensures var a2 := (a << 1) ^ (a >> 7) ^ ((a >> 7) << 1) ^ ((a >> 7) << 3) ^ ((a >> 7) << 4);
            var b2 := (b << 1) ^ (b >> 7) ^ ((b >> 7) << 1) ^ ((b >> 7) << 3) ^ ((b >> 7) << 4);
            var x := a2 ^ b2 ^ b ^ c ^ d;
            var x2 := (x << 1) ^ (x >> 7) ^ ((x >> 7) << 1) ^ ((x >> 7) << 3) ^ ((x >> 7) << 4);
            var x4 := (x2 << 1) ^ (x2 >> 7) ^ ((x2 >> 7) << 1) ^ ((x2 >> 7) << 3) ^ ((x2 >> 7) << 4);
            var x8 := (x4 << 1) ^ (x4 >> 7) ^ ((x4 >> 7) << 1) ^ ((x4 >> 7) << 3) ^ ((x4 >> 7) << 4);
            GfMul(x, 0x0e) == x8 ^ x4 ^ x2
  {
    hide GfMul;
    forall x: bv8
      ensures var x2 := (x << 1) ^ (x >> 7) ^ ((x >> 7) << 1) ^ ((x >> 7) << 3) ^ ((x >> 7) << 4);
              var x4 := (x2 << 1) ^ (x2 >> 7) ^ ((x2 >> 7) << 1) ^ ((x2 >> 7) << 3) ^ ((x2 >> 7) << 4);
              var x8 := (x4 << 1) ^ (x4 >> 7) ^ ((x4 >> 7) << 1) ^ ((x4 >> 7) << 3) ^ ((x4 >> 7) << 4);
              GfMul(x, 0x0e) == x8 ^ x4 ^ x2
    {
      Times14(x);
    }
  }

  lemma Times11(x: bv8)
    ensures var x2 := (x << 1) ^ (x >> 7) ^ ((x >> 7) << 1) ^ ((x >> 7) << 3) ^ ((x >> 7) << 4);
            var x4 := (x2 << 1) ^ (x2 >> 7) ^ ((x2 >> 7) << 1) ^ ((x2 >> 7) << 3) ^ ((x2 >> 7) << 4);
            var x8 := (x4 << 1) ^ (x4 >> 7) ^ ((x4 >> 7) << 1) ^ ((x4 >> 7) << 3) ^ ((x4 >> 7) << 4);
            GfMul(x, 0x0b) == x8 ^ x2 ^ x
  {
    hide XTime, GfMul;
    TablesHoldProducts(x);
    XTimeIsShifts(x);
    XTimeIsShifts(XTime(x));
    XTimeIsShifts(XTime(XTime(x)));
  }

  lemma Times11OfLane(a: bv8, b: bv8, c: bv8, d: bv8)
    ensures var a2 := (a << 1) ^ (a >> 7) ^ ((a >> 7) << 1) ^ ((a >> 7) << 3) ^ ((a >> 7) << 4);
            var b2 := (b << 1) ^ (b >> 7) ^ ((b >> 7) << 1) ^ ((b >> 7) << 3) ^ ((b >> 7) << 4);
            var x := a2 ^ b2 ^ b ^ c ^ d;
            var x2 := (x << 1) ^ (x >> 7) ^ ((x >> 7) << 1) ^ ((x >> 7) << 3) ^ ((x >> 7) << 4);
            var x4 := (x2 << 1) ^ (x2 >> 7) ^ ((x2 >> 7) << 1) ^ ((x2 >> 7) << 3) ^ ((x2 >> 7) << 4);
            var x8 := (x4 << 1) ^ (x4 >> 7) ^ ((x4 >> 7) << 1) ^ ((x4 >> 7) << 3) ^ ((x4 >> 7) << 4);
            GfMul(x, 0x0b) == x8 ^ x2 ^ x
  {
    hide GfMul;
    forall x: bv8
      ensures var x2 := (x << 1) ^ (x >> 7) ^ ((x >> 7) << 1) ^ ((x >> 7) << 3) ^ ((x >> 7) << 4);
              var x4 := (x2 << 1) ^ (x2 >> 7) ^ ((x2 >> 7) << 1) ^ ((x2 >> 7) << 3) ^ ((x2 >> 7) << 4);
              var x8 := (x4 << 1) ^ (x4 >> 7) ^ ((x4 >> 7) << 1) ^ ((x4 >> 7) << 3) ^ ((x4 >> 7) << 4);
              GfMul(x, 0x0b) == x8 ^ x2 ^ x
    {
      Times11(x);
    }
  }

  lemma Times13(x: bv8)
    ensures var x2 := (x << 1) ^ (x >> 7) ^ ((x >> 7) << 1) ^ ((x >> 7) << 3) ^ ((x >> 7) << 4);
            var x4 := (x2 << 1) ^ (x2 >> 7) ^ ((x2 >> 7) << 1) ^ ((x2 >> 7) << 3) ^ ((x2 >> 7) << 4);
            var x8 := (x4 << 1) ^ (x4 >> 7) ^ ((x4 >> 7) << 1) ^ ((x4 >> 7) << 3) ^ ((x4 >> 7) << 4);
            GfMul(x, 0x0d) == x8 ^ x4 ^ x
  {
    hide XTime, GfMul;
    TablesHoldProducts(x);
    XTimeIsShifts(x);
    XTimeIsShifts(XTime(x));
    XTimeIsShifts(XTime(XTime(x)));
  }

  lemma Times13OfLane(a: bv8, b: bv8, c: bv8, d: bv8)
    ensures var a2 := (a << 1) ^ (a >> 7) ^ ((a >> 7) << 1) ^ ((a >> 7) << 3) ^ ((a >> 7) << 4);
            var b2 := (b << 1) ^ (b >> 7) ^ ((b >> 7) << 1) ^ ((b >> 7) << 3) ^ ((b >> 7) << 4);
            var x := a2 ^ b2 ^ b ^ c ^ d;
            var x2 := (x << 1) ^ (x >> 7) ^ ((x >> 7) << 1) ^ ((x >> 7) << 3) ^ ((x >> 7) << 4);
            var x4 := (x2 << 1) ^ (x2 >> 7) ^ ((x2 >> 7) << 1) ^ ((x2 >> 7) << 3) ^ ((x2 >> 7) << 4);
            var x8 := (x4 << 1) ^ (x4 >> 7) ^ ((x4 >> 7) << 1) ^ ((x4 >> 7) << 3) ^ ((x4 >> 7) << 4);
            GfMul(x, 0x0d) == x8 ^ x4 ^ x
  {
    hide GfMul;
    forall x: bv8
      ensures var x2 := (x << 1) ^ (x >> 7) ^ ((x >> 7) << 1) ^ ((x >> 7) << 3) ^ ((x >> 7) << 4);
              var x4 := (x2 << 1) ^ (x2 >> 7) ^ ((x2 >> 7) << 1) ^ ((x2 >> 7) << 3) ^ ((x2 >> 7) << 4);
              var x8 := (x4 << 1) ^ (x4 >> 7) ^ ((x4 >> 7) << 1) ^ ((x4 >> 7) << 3) ^ ((x4 >> 7) << 4);
              GfMul(x, 0x0d) == x8 ^ x4 ^ x
    {
      Times13(x);
    }
  }

  lemma Times9(x: bv8)
    ensures var x2 := (x << 1) ^ (x >> 7) ^ ((x >> 7) << 1) ^ ((x >> 7) << 3) ^ ((x >> 7) << 4);
            var x4 := (x2 << 1) ^ (x2 >> 7) ^ ((x2 >> 7) << 1) ^ ((x2 >> 7) << 3) ^ ((x2 >> 7) << 4);
            var x8 := (x4 << 1) ^ (x4 >> 7) ^ ((x4 >> 7) << 1) ^ ((x4 >> 7) << 3) ^ ((x4 >> 7) << 4);
            GfMul(x, 0x09) == x8 ^ x
  {
    hide XTime, GfMul;
    TablesHoldProducts(x);
    XTimeIsShifts(x);
    XTimeIsShifts(XTime(x));
    XTimeIsShifts(XTime(XTime(x)));
  }

  lemma Times9OfLane(a: bv8, b: bv8, c: bv8, d: bv8)
    ensures var a2 := (a << 1) ^ (a >> 7) ^ ((a >> 7) << 1) ^ ((a >> 7) << 3) ^ ((a >> 7) << 4);
            var b2 := (b << 1) ^ (b >> 7) ^ ((b >> 7) << 1) ^ ((b >> 7) << 3) ^ ((b >> 7) << 4);
            var x := a2 ^ b2 ^ b ^ c ^ d;
            var x2 := (x << 1) ^ (x >> 7) ^ ((x >> 7) << 1) ^ ((x >> 7) << 3) ^ ((x >> 7) << 4);
            var x4 := (x2 << 1) ^ (x2 >> 7) ^ ((x2 >> 7) << 1) ^ ((x2 >> 7) << 3) ^ ((x2 >> 7) << 4);
            var x8 := (x4 << 1) ^ (x4 >> 7) ^ ((x4 >> 7) << 1) ^ ((x4 >> 7) << 3) ^ ((x4 >> 7) << 4);
            GfMul(x, 0x09) == x8 ^ x
  {
    hide GfMul;
    forall x: bv8
      ensures var x2 := (x << 1) ^ (x >> 7) ^ ((x >> 7) << 1) ^ ((x >> 7) << 3) ^ ((x >> 7) << 4);
              var x4 := (x2 << 1) ^ (x2 >> 7) ^ ((x2 >> 7) << 1) ^ ((x2 >> 7) << 3) ^ ((x2 >> 7) << 4);
              var x8 := (x4 << 1) ^ (x4 >> 7) ^ ((x4 >> 7) << 1) ^ ((x4 >> 7) << 3) ^ ((x4 >> 7) << 4);
              GfMul(x, 0x09) == x8 ^ x
    {
      Times9(x);
    }
  }

  lemma Times2(x: bv8)
    ensures var x2 := (x << 1) ^ (x >> 7) ^ ((x >> 7) << 1) ^ ((x >> 7) << 3) ^ ((x >> 7) << 4);
            GfMul(x, 0x02) == x2
  {
    hide XTime, GfMul;
    TablesHoldProducts(x);
    XTimeIsShifts(x);
  }

  lemma Times3(x: bv8)
    ensures var x2 := (x << 1) ^ (x >> 7) ^ ((x >> 7) << 1) ^ ((x >> 7) << 3) ^ ((x >> 7) << 4);
            GfMul(x, 0x03) == x2 ^ x
  {
    hide XTime, GfMul;
    TablesHoldProducts(x);
    XTimeIsShifts(x);
  }

  lemma SumOfShifts(a: bv8, b: bv8, c: bv8, d: bv8)
    ensures var a2 := (a << 1) ^ (a >> 7) ^ ((a >> 7) << 1) ^ ((a >> 7) << 3) ^ ((a >> 7) << 4);
            var b2 := (b << 1) ^ (b >> 7) ^ ((b >> 7) << 1) ^ ((b >> 7) << 3) ^ ((b >> 7) << 4);
            Sum(a2, b2 ^ b, c, d) == a2 ^ b2 ^ b ^ c ^ d
  {}

  lemma LaneIsShifts(a: bv8, b: bv8, c: bv8, d: bv8)
    ensures var a2 := (a << 1) ^ (a >> 7) ^ ((a >> 7) << 1) ^ ((a >> 7) << 3) ^ ((a >> 7) << 4);
            var b2 := (b << 1) ^ (b >> 7) ^ ((b >> 7) << 1) ^ ((b >> 7) << 3) ^ ((b >> 7) << 4);
            Lane(a, b, c, d) == a2 ^ b2 ^ b ^ c ^ d
  {
    hide GfMul, Sum;
    Times2(a);
    Times3(b);
    LaneIsSum(a, b, c, d);
    SumOfShifts(a, b, c, d);
  }

  lemma LaneIsSum(a: bv8, b: bv8, c: bv8, d: bv8)
    ensures Lane(a, b, c, d) == Sum(GfMul(a, 0x02), GfMul(b, 0x03), c, d)
  {
    hide GfMul;
  }

  function Sum(p: bv8, q: bv8, r: bv8, s: bv8): bv8 { p ^ q ^ r ^ s }

  /** x^3 + x^2 + x, x^3 + x + 1, x^3 + x^2 + 1 and x^3 + 1 times the four mixed bytes add up to the first
      unmixed one. */
  lemma EverythingCancels(a: bv8, b: bv8, c: bv8, d: bv8)
    ensures
      var a2 := (a << 1) ^ (a >> 7) ^ ((a >> 7) << 1) ^ ((a >> 7) << 3) ^ ((a >> 7) << 4);
      var b2 := (b << 1) ^ (b >> 7) ^ ((b >> 7) << 1) ^ ((b >> 7) << 3) ^ ((b >> 7) << 4);
      var c2 := (c << 1) ^ (c >> 7) ^ ((c >> 7) << 1) ^ ((c >> 7) << 3) ^ ((c >> 7) << 4);
      var d2 := (d << 1) ^ (d >> 7) ^ ((d >> 7) << 1) ^ ((d >> 7) << 3) ^ ((d >> 7) << 4);
      var p := a2 ^ b2 ^ b ^ c ^ d;
      var q := b2 ^ c2 ^ c ^ d ^ a;
      var r := c2 ^ d2 ^ d ^ a ^ b;
      var s := d2 ^ a2 ^ a ^ b ^ c;
      var p2 := (p << 1) ^ (p >> 7) ^ ((p >> 7) << 1) ^ ((p >> 7) << 3) ^ ((p >> 7) << 4);
      var p4 := (p2 << 1) ^ (p2 >> 7) ^ ((p2 >> 7) << 1) ^ ((p2 >> 7) << 3) ^ ((p2 >> 7) << 4);
      var p8 := (p4 << 1) ^ (p4 >> 7) ^ ((p4 >> 7) << 1) ^ ((p4 >> 7) << 3) ^ ((p4 >> 7) << 4);
      var q2 := (q << 1) ^ (q >> 7) ^ ((q >> 7) << 1) ^ ((q >> 7) << 3) ^ ((q >> 7) << 4);
      var q4 := (q2 << 1) ^ (q2 >> 7) ^ ((q2 >> 7) << 1) ^ ((q2 >> 7) << 3) ^ ((q2 >> 7) << 4);
      var q8 := (q4 << 1) ^ (q4 >> 7) ^ ((q4 >> 7) << 1) ^ ((q4 >> 7) << 3) ^ ((q4 >> 7) << 4);
      var r2 := (r << 1) ^ (r >> 7) ^ ((r >> 7) << 1) ^ ((r >> 7) << 3) ^ ((r >> 7) << 4);
      var r4 := (r2 << 1) ^ (r2 >> 7) ^ ((r2 >> 7) << 1) ^ ((r2 >> 7) << 3) ^ ((r2 >> 7) << 4);
      var r8 := (r4 << 1) ^ (r4 >> 7) ^ ((r4 >> 7) << 1) ^ ((r4 >> 7) << 3) ^ ((r4 >> 7) << 4);
      var s2 := (s << 1) ^ (s >> 7) ^ ((s >> 7) << 1) ^ ((s >> 7) << 3) ^ ((s >> 7) << 4);
      var s4 := (s2 << 1) ^ (s2 >> 7) ^ ((s2 >> 7) << 1) ^ ((s2 >> 7) << 3) ^ ((s2 >> 7) << 4);
      var s8 := (s4 << 1) ^ (s4 >> 7) ^ ((s4 >> 7) << 1) ^ ((s4 >> 7) << 3) ^ ((s4 >> 7) << 4);
      Sum(p8 ^ p4 ^ p2, q8 ^ q2 ^ q, r8 ^ r4 ^ r, s8 ^ s) == a
  {}

  /** Unmixing a mixed column gives its first byte back, and by rotation every byte. */
  lemma InverseLane(a: bv8, b: bv8, c: bv8, d: bv8)
    ensures InvLane(Lane(a, b, c, d), Lane(b, c, d, a), Lane(c, d, a, b), Lane(d, a, b, c)) == a
  {
    hide Lane, InvLane, GfMul, Sum;
    InvLaneIsSum(Lane(a, b, c, d), Lane(b, c, d, a), Lane(c, d, a, b), Lane(d, a, b, c));
    LaneIsShifts(a, b, c, d); LaneIsShifts(b, c, d, a); LaneIsShifts(c, d, a, b); LaneIsShifts(d, a, b, c);
    Times14OfLane(a, b, c, d);
    Times11OfLane(b, c, d, a);
    Times13OfLane(c, d, a, b);
    Times9OfLane(d, a, b, c);
    EverythingCancels(a, b, c, d);
  }

  lemma InvLaneIsSum(a: bv8, b: bv8, c: bv8, d: bv8)
    ensures InvLane(a, b, c, d) == Sum(GfMul(a, 0x0e), GfMul(b, 0x0b), GfMul(c, 0x0d), GfMul(d, 0x09))
  {
    hide GfMul;
  }

  lemma InvMixInvertsMix(s: Block)
    ensures InvMixColumns(MixColumns(s)) == s
  {
    WordInverse(Column(s, 0)); WordInverse(Column(s, 1)); WordInverse(Column(s, 2)); WordInverse(Column(s, 3));
    hide MixWord, InvMixWord;
    var m := MixColumns(s);
    ColumnsOfJoin(MixWord(Column(s, 0)), MixWord(Column(s, 1)), MixWord(Column(s, 2)), MixWord(Column(s, 3)));
    JoinColumns(s);
  }

  lemma WordInverse(w: Word)
    ensures InvMixWord(MixWord(w)) == w
  {
    hide Lane, InvLane;
    InverseLane(w[0], w[1], w[2], w[3]); InverseLane(w[1], w[2], w[3], w[0]);
    InverseLane(w[2], w[3], w[0], w[1]); InverseLane(w[3], w[0], w[1], w[2]);
  }

  lemma ColumnsOfJoin(a: Word, b: Word, c: Word, d: Word)
    ensures var s := Join(a, b, c, d);
            Column(s, 0) == a && Column(s, 1) == b && Column(s, 2) == c && Column(s, 3) == d
  {}

  lemma JoinColumns(s: Block)
    ensures Join(Column(s, 0), Column(s, 1), Column(s, 2), Column(s, 3)) == s
  {}

  lemma InvSubInvertsSub(s: Block)
    ensures InvSubBytes(SubBytes(s)) == s
  {
    forall i | 0 <= i < 16 ensures InvSubBytes(SubBytes(s))[i] == s[i] {
      InvSubByteInverts(s[i]);
    }
  }

  lemma InvShiftInvertsShift(s: Block)
    ensures InvShiftRows(ShiftRows(s)) == s
  {
    forall i | 0 <= i < 16 ensures InvShiftRows(ShiftRows(s))[i] == s[i] {
      ShiftBack(i);
    }
  }

  lemma ShiftBack(i: nat)
    requires i < 16
    ensures var j := i % 4 + 4 * ((i / 4 + 4 - i % 4) % 4);
            j < 16 && j % 4 + 4 * ((j / 4 + j % 4) % 4) == i
  {}

  lemma KeyAddedTwice(s: Block, k: Block)
    ensures AddRoundKey(AddRoundKey(s, k), k) == s
  {}

  /** Undoing the rounds of a cipher text down to `r` gives the state before round r was keyed. */
  lemma {:induction false} BackwardUndoesForward(s: Block, w: seq<bv8>, n: nat, r: nat)
    requires n >= 2 && |w| == 16 * n && 1 <= r < n
    ensures Backward(Cipher(s, w, n), w, n, r) == ShiftRows(SubBytes(Forward(s, w, r - 1)))
    decreases n - r
  {
    hide SubBytes, ShiftRows, MixColumns, InvSubBytes, InvShiftRows, InvMixColumns, AddRoundKey;
    var x := ShiftRows(SubBytes(Forward(s, w, r - 1)));
    if r == n - 1 {
      KeyAddedTwice(x, RoundKey(w, n - 1));
    } else {
      BackwardUndoesForward(s, w, n, r + 1);
      InvShiftInvertsShift(SubBytes(Forward(s, w, r)));
      InvSubInvertsSub(Forward(s, w, r));
      KeyAddedTwice(MixColumns(x), RoundKey(w, r));
      InvMixInvertsMix(x);
    }
  }

  /** Decryption undoes encryption: for every block and every list of at least two round keys,
      so for every key of every size. */
  lemma InvCipherInvertsCipher(s: Block, w: seq<bv8>, n: nat)
    requires n >= 2 && |w| == 16 * n
    ensures InvCipher(Cipher(s, w, n), w, n) == s
  {
    hide SubBytes, ShiftRows, MixColumns, InvSubBytes, InvShiftRows, InvMixColumns, AddRoundKey, Cipher, Backward;
    BackwardUndoesForward(s, w, n, 1);
    InvShiftInvertsShift(SubBytes(Forward(s, w, 0)));
    InvSubInvertsSub(Forward(s, w, 0));
    KeyAddedTwice(s, RoundKey(w, 0));
  }

  // ----- the key schedule (section 5.2 of FIPS 197)

  predicate KeySize(n: nat) {
    n == 16 || n == 24 || n == 32
  }

  const GF_8: seq<bv8> := [0x01, 0x02, 0x04, 0x08, 0x10, 0x20, 0x40, 0x80, 0x1b, 0x36]

  /** The round constant, x to the i-1. */
  function Rcon(i: nat): bv8
    requires i > 0
  {
    if i == 1 then 1 else XTime(Rcon(i - 1))
  }

  /** oaes_gf_8[i - 1] */
  function RconLookup(i: nat): bv8
    requires 1 <= i <= 10
  {
    GF_8[i - 1]
  }

  lemma RconTable(i: nat)
    requires 1 <= i <= 10
    ensures RconLookup(i) == Rcon(i)
  {
    assert Rcon(2) == 0x02 && Rcon(3) == 0x04 && Rcon(4) == 0x08 && Rcon(5) == 0x10;
    assert Rcon(6) == 0x20 && Rcon(7) == 0x40 && Rcon(8) == 0x80 && Rcon(9) == 0x1b && Rcon(10) == 0x36;
  }

  function XorWord(a: Word, b: Word): Word { [a[0] ^ b[0], a[1] ^ b[1], a[2] ^ b[2], a[3] ^ b[3]] }
  function SubWord(a: Word): Word { [SubByte(a[0]), SubByte(a[1]), SubByte(a[2]), SubByte(a[3])] }
  function RotWord(a: Word): Word { [a[1], a[2], a[3], a[0]] }

  /** Which key-length of words, and which place in it, the i-th word is. */
  function Turn(nk: nat, i: nat): (t: nat)
    requires 4 <= nk <= 8 && i >= nk
    ensures t > 0
  {
    i / nk
  }

  function Place(nk: nat, i: nat): nat
    requires 4 <= nk <= 8
  {
    i % nk
  }

  /** What the previous word becomes before it is added. */
  function Transformed(nk: nat, i: nat, temp: Word): Word
    requires 4 <= nk <= 8 && i >= nk
  {
    if Place(nk, i) == 0 then XorWord(SubWord(RotWord(temp)), [Rcon(Turn(nk, i)), 0, 0, 0])
    else if nk > 6 && Place(nk, i) == 4 then SubWord(temp)
    else temp
  }

  /** The i-th word of the expanded key. */
  function KeyWord(key: seq<bv8>, i: nat): Word
    requires KeySize(|key|)
  {
    var nk := |key| / 4;
    if i < nk then key[4 * i..4 * i + 4]
    else XorWord(KeyWord(key, i - nk), Transformed(nk, i, KeyWord(key, i - 1)))
  }

  /** The first `n` words. */
  function Schedule(key: seq<bv8>, n: nat): (w: seq<bv8>)
    requires KeySize(|key|)
    ensures |w| == 4 * n
  {
    if n == 0 then [] else Schedule(key, n - 1) + KeyWord(key, n - 1)
  }

  function NumKeys(key: seq<bv8>): nat {
    |key| / 4 + 7
  }

  /** All round keys: 11, 13 or 15 of them. */
  function ExpandedKey(key: seq<bv8>): (w: seq<bv8>)
    requires KeySize(|key|)
    ensures |w| == 16 * NumKeys(key)
  {
    Schedule(key, 4 * NumKeys(key))
  }

  lemma XorFirst(t: Word, r: bv8)
    ensures XorWord(t, [r, 0, 0, 0]) == t[0 := t[0] ^ r]
  {}

  lemma {:induction false} ScheduleAt(key: seq<bv8>, n: nat, i: nat)
    requires KeySize(|key|) && i < n
    ensures Schedule(key, n)[4 * i..4 * i + 4] == KeyWord(key, i)
    decreases n
  {
    hide KeyWord;
    if i < n - 1 {
      ScheduleAt(key, n - 1, i);
      assert Schedule(key, n)[4 * i..4 * i + 4] == Schedule(key, n - 1)[4 * i..4 * i + 4];
    }
  }

  lemma {:induction false} ScheduleStarts(key: seq<bv8>, n: nat)
    requires KeySize(|key|) && 4 * n <= |key|
    ensures Schedule(key, n) == key[..4 * n]
  {
    if n > 0 {
      ScheduleStarts(key, n - 1);
      assert key[..4 * n] == key[..4 * (n - 1)] + key[4 * (n - 1)..4 * n];
    }
  }

  /** The whole expanded key starts with the key. */
  lemma ExpandedStart(key: seq<bv8>)
    requires KeySize(|key|)
    ensures |ExpandedKey(key)| == 4 * |key| + 112 && ExpandedKey(key)[..|key|] == key
  {
    hide KeyWord;
    ScheduleStarts(key, |key| / 4);
    SchedulePrefix(key, |key| / 4, 4 * NumKeys(key));
  }

  lemma {:induction false} SchedulePrefix(key: seq<bv8>, m: nat, n: nat)
    requires KeySize(|key|) && m <= n
    ensures Schedule(key, n)[..4 * m] == Schedule(key, m)
    decreases n
  {
    hide KeyWord;
    if m < n {
      SchedulePrefix(key, m, n - 1);
    }
  }

  function WordAt(w: seq<bv8>, i: nat): Word
    requires 4 * i + 4 <= |w|
  {
    w[4 * i..4 * i + 4]
  }

  /** The rule of section 5.2 of FIPS 197 for word `i` with a key of `nk` words: from word i-nk and word i-1. */
  predicate StandardWord(nk: nat, i: nat, from: Word, before: Word, word: Word)
    requires nk > 0
  {
    if i % nk == 0 then
      i / nk > 0 && word == XorWord(from, XorWord(SubWord(RotWord(before)), [Rcon(i / nk), 0, 0, 0]))
    else if nk == 8 && i % 8 == 4 then word == XorWord(from, SubWord(before))
    else word == XorWord(from, before)
  }

  /** And every later word is made of two before it by the rule. */
  lemma ExpandedWord(key: seq<bv8>, w: seq<bv8>, nk: nat, i: nat)
    requires KeySize(|key|) && w == ExpandedKey(key) && nk == |key| / 4 && nk <= i < 4 * (nk + 7)
    ensures |w| == 16 * (nk + 7) && StandardWord(nk, i, WordAt(w, i - nk), WordAt(w, i - 1), WordAt(w, i))
  {
    hide Schedule, XorWord, SubWord, RotWord, Rcon, KeyWord, StandardWord, Transformed;
    var n := 4 * NumKeys(key);
    ScheduleAt(key, n, i);
    ScheduleAt(key, n, i - 1);
    ScheduleAt(key, n, i - nk);
    KeyWordIs(key, i);
    TransformedIsStandard(nk, i, KeyWord(key, i - nk), KeyWord(key, i - 1));
  }

  lemma KeyWordIs(key: seq<bv8>, i: nat)
    requires KeySize(|key|) && |key| / 4 <= i
    ensures KeyWord(key, i) == XorWord(KeyWord(key, i - |key| / 4), Transformed(|key| / 4, i, KeyWord(key, i - 1)))
  {
    hide XorWord, Transformed;
  }

  lemma TransformedIsStandard(nk: nat, i: nat, from: Word, before: Word)
    requires nk == 4 || nk == 6 || nk == 8
    requires i >= nk
    ensures StandardWord(nk, i, from, before, XorWord(from, Transformed(nk, i, before)))
  {
    hide XorWord, SubWord, RotWord, Rcon;
  }
}
