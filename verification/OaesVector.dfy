/** The example of appendix C.3 of FIPS 197: a key of 32 bytes, its first round keys, and a block through a first
    round; a last round follows. It fixes what the round trips leave open: the order of bytes and transformations. */
module OaesVector {
  import opened OaesTables
  import opened OaesBlock

  // ----- a round by columns

  predicate RoundGives(s: Block, k: Block, t: Block) {
    AddRoundKey(MixColumns(ShiftRows(SubBytes(s))), k) == t
  }

  predicate ColumnGives(a: bv8, b: bv8, c: bv8, d: bv8, k: Word, t: Word) {
    XorWord(MixWord(SubWord([a, b, c, d])), k) == t
  }

  function Xor(a: bv8, b: bv8): bv8 { a ^ b }

  lemma XorWordAt(a: Word, k: Word)
    ensures XorWord(a, k) == [Xor(a[0], k[0]), Xor(a[1], k[1]), Xor(a[2], k[2]), Xor(a[3], k[3])]
  {}

  lemma KeyAt(s: Block, k: Block, i: nat)
    requires i < 16
    ensures AddRoundKey(s, k)[i] == Xor(s[i], k[i])
  {}

  lemma KeyColumn(s: Block, k: Block, c: nat)
    requires c < 4
    ensures Column(AddRoundKey(s, k), c) == XorWord(Column(s, c), Column(k, c))
  {
    hide AddRoundKey, Xor, XorWord;
    XorWordAt(Column(s, c), Column(k, c));
    KeyAt(s, k, 4 * c); KeyAt(s, k, 4 * c + 1); KeyAt(s, k, 4 * c + 2); KeyAt(s, k, 4 * c + 3);
  }

  lemma ShiftedAt(s: Block, i: nat)
    requires i < 16
    ensures ShiftRows(SubBytes(s))[i] == SubByte(s[4 * ((i / 4 + i % 4) % 4) + i % 4])
  {
    hide SubByte;
  }

  lemma ColumnIs(t: Block, c: nat, w: Word)
    requires c < 4 && t[4 * c] == w[0] && t[4 * c + 1] == w[1] && t[4 * c + 2] == w[2] && t[4 * c + 3] == w[3]
    ensures Column(t, c) == w
  {}

  /** The bytes of a column come down a diagonal. */
  lemma ShiftedColumns(s: Block)
    ensures var t := ShiftRows(SubBytes(s));
            && Column(t, 0) == SubWord([s[0], s[5], s[10], s[15]]) && Column(t, 1) == SubWord([s[4], s[9], s[14], s[3]])
            && Column(t, 2) == SubWord([s[8], s[13], s[2], s[7]]) && Column(t, 3) == SubWord([s[12], s[1], s[6], s[11]])
  {
    hide SubByte, ShiftRows, SubBytes, Column;
    var t := ShiftRows(SubBytes(s));
    ShiftedAt(s, 0); ShiftedAt(s, 1); ShiftedAt(s, 2); ShiftedAt(s, 3);
    ColumnIs(t, 0, SubWord([s[0], s[5], s[10], s[15]]));
    ShiftedAt(s, 4); ShiftedAt(s, 5); ShiftedAt(s, 6); ShiftedAt(s, 7);
    ColumnIs(t, 1, SubWord([s[4], s[9], s[14], s[3]]));
    ShiftedAt(s, 8); ShiftedAt(s, 9); ShiftedAt(s, 10); ShiftedAt(s, 11);
    ColumnIs(t, 2, SubWord([s[8], s[13], s[2], s[7]]));
    ShiftedAt(s, 12); ShiftedAt(s, 13); ShiftedAt(s, 14); ShiftedAt(s, 15);
    ColumnIs(t, 3, SubWord([s[12], s[1], s[6], s[11]]));
  }

  lemma SameColumns(s: Block, t: Block)
    requires Column(s, 0) == Column(t, 0) && Column(s, 1) == Column(t, 1)
    requires Column(s, 2) == Column(t, 2) && Column(s, 3) == Column(t, 3)
    ensures s == t
  {
    JoinColumns(s);
    JoinColumns(t);
  }

  lemma FromColumns(s: Block, k: Block, t: Block)
    requires ColumnGives(s[0], s[5], s[10], s[15], Column(k, 0), Column(t, 0))
    requires ColumnGives(s[4], s[9], s[14], s[3], Column(k, 1), Column(t, 1))
    requires ColumnGives(s[8], s[13], s[2], s[7], Column(k, 2), Column(t, 2))
    requires ColumnGives(s[12], s[1], s[6], s[11], Column(k, 3), Column(t, 3))
    ensures RoundGives(s, k, t)
  {
    hide AddRoundKey, ShiftRows, SubBytes, SubWord, MixWord, XorWord, Column;
    ShiftedColumns(s);
    var u := ShiftRows(SubBytes(s));
    ColumnsOfJoin(MixWord(Column(u, 0)), MixWord(Column(u, 1)), MixWord(Column(u, 2)), MixWord(Column(u, 3)));
    var m := MixColumns(u);
    KeyColumn(m, k, 0); KeyColumn(m, k, 1); KeyColumn(m, k, 2); KeyColumn(m, k, 3);
    SameColumns(AddRoundKey(m, k), t);
  }

  function Mixed(a: bv8, b: bv8, c: bv8, d: bv8): bv8 {
    var a2 := (a << 1) ^ (a >> 7) ^ ((a >> 7) << 1) ^ ((a >> 7) << 3) ^ ((a >> 7) << 4);
    var b2 := (b << 1) ^ (b >> 7) ^ ((b >> 7) << 1) ^ ((b >> 7) << 3) ^ ((b >> 7) << 4);
    a2 ^ b2 ^ b ^ c ^ d
  }

  lemma LaneIsMixed(a: bv8, b: bv8, c: bv8, d: bv8)
    ensures Lane(a, b, c, d) == Mixed(a, b, c, d)
  {
    hide Lane;
    LaneIsShifts(a, b, c, d);
  }

  lemma Mix(a: bv8, b: bv8, c: bv8, d: bv8)
    ensures MixWord([a, b, c, d]) == [Mixed(a, b, c, d), Mixed(b, c, d, a), Mixed(c, d, a, b), Mixed(d, a, b, c)]
  {
    hide Lane, Mixed;
    LaneIsMixed(a, b, c, d); LaneIsMixed(b, c, d, a); LaneIsMixed(c, d, a, b); LaneIsMixed(d, a, b, c);
  }

  // ----- the key schedule

  const W0: Word := [0x00, 0x01, 0x02, 0x03]
  const W1: Word := [0x04, 0x05, 0x06, 0x07]
  const W2: Word := [0x08, 0x09, 0x0a, 0x0b]
  const W3: Word := [0x0c, 0x0d, 0x0e, 0x0f]
  const W4: Word := [0x10, 0x11, 0x12, 0x13]
  const W5: Word := [0x14, 0x15, 0x16, 0x17]
  const W6: Word := [0x18, 0x19, 0x1a, 0x1b]
  const W7: Word := [0x1c, 0x1d, 0x1e, 0x1f]
  const W8: Word := [0xa5, 0x73, 0xc2, 0x9f]
  const W9: Word := [0xa1, 0x76, 0xc4, 0x98]
  const W10: Word := [0xa9, 0x7f, 0xce, 0x93]
  const W11: Word := [0xa5, 0x72, 0xc0, 0x9c]
  const W12: Word := [0x16, 0x51, 0xa8, 0xcd]
  const W13: Word := [0x02, 0x44, 0xbe, 0xda]
  const W14: Word := [0x1a, 0x5d, 0xa4, 0xc1]
  const W15: Word := [0x06, 0x40, 0xba, 0xde]
  const W16: Word := [0xae, 0x87, 0xdf, 0xf0]
  const W17: Word := [0x0f, 0xf1, 0x1b, 0x68]
  const W18: Word := [0xa6, 0x8e, 0xd5, 0xfb]
  const W19: Word := [0x03, 0xfc, 0x15, 0x67]
  const W20: Word := [0x6d, 0xe1, 0xf1, 0x48]
  const W21: Word := [0x6f, 0xa5, 0x4f, 0x92]
  const W22: Word := [0x75, 0xf8, 0xeb, 0x53]
  const W23: Word := [0x73, 0xb8, 0x51, 0x8d]
  const W24: Word := [0xc6, 0x56, 0x82, 0x7f]
  const W25: Word := [0xc9, 0xa7, 0x99, 0x17]
  const W26: Word := [0x6f, 0x29, 0x4c, 0xec]
  const W27: Word := [0x6c, 0xd5, 0x59, 0x8b]
  const W28: Word := [0x3d, 0xe2, 0x3a, 0x75]
  const W29: Word := [0x52, 0x47, 0x75, 0xe7]
  const W30: Word := [0x27, 0xbf, 0x9e, 0xb4]
  const W31: Word := [0x54, 0x07, 0xcf, 0x39]

  const KEY: seq<bv8> := Join(W0, W1, W2, W3) + Join(W4, W5, W6, W7)

  /** Four words of the expanded key. */
  predicate KeyRow(r: nat, a: Word, b: Word, c: Word, d: Word) {
    && KeyWord(KEY, 4 * r) == a && KeyWord(KEY, 4 * r + 1) == b
    && KeyWord(KEY, 4 * r + 2) == c && KeyWord(KEY, 4 * r + 3) == d
  }

  lemma FromTwoBefore(i: nat)
    requires i >= 8
    ensures KeyWord(KEY, i) == XorWord(KeyWord(KEY, i - 8), Transformed(8, i, KeyWord(KEY, i - 1)))
  {
    hide XorWord, Transformed, Column;
  }

  lemma Untransformed(i: nat, temp: Word)
    requires i >= 8 && i % 4 != 0
    ensures Transformed(8, i, temp) == temp
  {
    hide XorWord, SubWord, RotWord, Rcon;
  }

  /** Row `r` from the two rows before it. */
  lemma NextRow(r: nat, a: Word, b: Word, c: Word, d: Word, p: Word, q: Word, s: Word, t: Word)
    requires r >= 2 && KeyRow(r - 2, a, b, c, d) && KeyRow(r - 1, p, q, s, t)
    ensures var w := XorWord(a, Transformed(8, 4 * r, t));
            var x := XorWord(b, w);
            var y := XorWord(c, x);
            KeyRow(r, w, x, y, XorWord(d, y))
  {
    hide XorWord, Transformed, KeyWord;
    var w := XorWord(a, Transformed(8, 4 * r, t));
    var x := XorWord(b, w);
    FromTwoBefore(4 * r); FromTwoBefore(4 * r + 1); FromTwoBefore(4 * r + 2); FromTwoBefore(4 * r + 3);
    Untransformed(4 * r + 1, w); Untransformed(4 * r + 2, x); Untransformed(4 * r + 3, XorWord(c, x));
  }

  lemma KeyIsFirst()
    ensures KeyRow(0, W0, W1, W2, W3) && KeyRow(1, W4, W5, W6, W7)
  {}

  predicate Sub(a: Word, t: Word) { SubWord(a) == t }

  // What begins a row: the word before it, rotated where eight divides its index, and substituted.

  lemma Sub2()
    ensures Sub([0x1d, 0x1e, 0x1f, 0x1c], [0xa4, 0x72, 0xc0, 0x9c])
  {}

  lemma Sub3()
    ensures Sub([0xa5, 0x72, 0xc0, 0x9c], [0x06, 0x40, 0xba, 0xde])
  {}

  lemma Sub4()
    ensures Sub([0x40, 0xba, 0xde, 0x06], [0x09, 0xf4, 0x1d, 0x6f])
  {}

  lemma Sub5()
    ensures Sub([0x03, 0xfc, 0x15, 0x67], [0x7b, 0xb0, 0x59, 0x85])
  {}

  lemma Sub6()
    ensures Sub([0xb8, 0x51, 0x8d, 0x73], [0x6c, 0xd1, 0x5d, 0x8f])
  {}

  lemma Sub7()
    ensures Sub([0x6c, 0xd5, 0x59, 0x8b], [0x50, 0x03, 0xcb, 0x3d])
  {}

  lemma Row2()
    requires KeyRow(0, W0, W1, W2, W3) && KeyRow(1, W4, W5, W6, W7)
    ensures KeyRow(2, W8, W9, W10, W11)
  {
    hide KeyRow, Rcon, SubWord;
    Sub2();
    RconTable(1);
    NextRow(2, W0, W1, W2, W3,
            W4, W5, W6, W7);
  }

  lemma Row3()
    requires KeyRow(1, W4, W5, W6, W7) && KeyRow(2, W8, W9, W10, W11)
    ensures KeyRow(3, W12, W13, W14, W15)
  {
    hide KeyRow, Rcon, SubWord;
    Sub3();
    RconTable(1);
    NextRow(3, W4, W5, W6, W7,
            W8, W9, W10, W11);
  }

  lemma Row4()
    requires KeyRow(2, W8, W9, W10, W11) && KeyRow(3, W12, W13, W14, W15)
    ensures KeyRow(4, W16, W17, W18, W19)
  {
    hide KeyRow, Rcon, SubWord;
    Sub4();
    RconTable(2);
    NextRow(4, W8, W9, W10, W11,
            W12, W13, W14, W15);
  }

  lemma Row5()
    requires KeyRow(3, W12, W13, W14, W15) && KeyRow(4, W16, W17, W18, W19)
    ensures KeyRow(5, W20, W21, W22, W23)
  {
    hide KeyRow, Rcon, SubWord;
    Sub5();
    RconTable(2);
    NextRow(5, W12, W13, W14, W15,
            W16, W17, W18, W19);
  }

  lemma Row6()
    requires KeyRow(4, W16, W17, W18, W19) && KeyRow(5, W20, W21, W22, W23)
    ensures KeyRow(6, W24, W25, W26, W27)
  {
    hide KeyRow, Rcon, SubWord;
    Sub6();
    RconTable(3);
    NextRow(6, W16, W17, W18, W19,
            W20, W21, W22, W23);
  }

  lemma Row7()
    requires KeyRow(5, W20, W21, W22, W23) && KeyRow(6, W24, W25, W26, W27)
    ensures KeyRow(7, W28, W29, W30, W31)
  {
    hide KeyRow, Rcon, SubWord;
    Sub7();
    RconTable(3);
    NextRow(7, W20, W21, W22, W23,
            W24, W25, W26, W27);
  }

  lemma SliceByWords(w: seq<bv8>, at: nat)
    requires at + 16 <= |w|
    ensures w[at..at + 16] == Join(w[at..at + 4], w[at + 4..at + 8], w[at + 8..at + 12], w[at + 12..at + 16])
  {}

  predicate RoundKeyIs(r: nat, k: Block)
    requires r < 15
  {
    RoundKey(ExpandedKey(KEY), r) == k
  }

  lemma RowIsRoundKey(r: nat, a: Word, b: Word, c: Word, d: Word)
    requires r < 15 && KeyRow(r, a, b, c, d)
    ensures RoundKeyIs(r, Join(a, b, c, d))
  {
    hide Schedule, KeyWord, Join;
    SliceByWords(ExpandedKey(KEY), 16 * r);
    ScheduleAt(KEY, 60, 4 * r); ScheduleAt(KEY, 60, 4 * r + 1);
    ScheduleAt(KEY, 60, 4 * r + 2); ScheduleAt(KEY, 60, 4 * r + 3);
  }

  /** The first 32 words of the expansion of the key of 32 bytes. */
  lemma KeyExpansion()
    ensures RoundKeyIs(0, Join(W0, W1, W2, W3))
    ensures RoundKeyIs(1, Join(W4, W5, W6, W7))
    ensures RoundKeyIs(2, Join(W8, W9, W10, W11))
    ensures RoundKeyIs(3, Join(W12, W13, W14, W15))
    ensures RoundKeyIs(4, Join(W16, W17, W18, W19))
    ensures RoundKeyIs(5, Join(W20, W21, W22, W23))
    ensures RoundKeyIs(6, Join(W24, W25, W26, W27))
    ensures RoundKeyIs(7, Join(W28, W29, W30, W31))
  {
    hide KeyRow, RoundKeyIs, Join;
    KeyIsFirst();
    Row2(); Row3(); Row4(); Row5(); Row6(); Row7();
    RowIsRoundKey(0, W0, W1, W2, W3);
    RowIsRoundKey(1, W4, W5, W6, W7);
    RowIsRoundKey(2, W8, W9, W10, W11);
    RowIsRoundKey(3, W12, W13, W14, W15);
    RowIsRoundKey(4, W16, W17, W18, W19);
    RowIsRoundKey(5, W20, W21, W22, W23);
    RowIsRoundKey(6, W24, W25, W26, W27);
    RowIsRoundKey(7, W28, W29, W30, W31);
  }

  // ----- two rounds

  const PLAIN: Block := [0x00, 0x11, 0x22, 0x33, 0x44, 0x55, 0x66, 0x77,
                         0x88, 0x99, 0xaa, 0xbb, 0xcc, 0xdd, 0xee, 0xff]
  const ROUND0: Block := [0x00, 0x10, 0x20, 0x30, 0x40, 0x50, 0x60, 0x70,
                          0x80, 0x90, 0xa0, 0xb0, 0xc0, 0xd0, 0xe0, 0xf0]
  const ROUND1: Block := [0x4f, 0x63, 0x76, 0x06, 0x43, 0xe0, 0xaa, 0x85,
                          0xef, 0xa7, 0x21, 0x32, 0x01, 0xa4, 0xe7, 0x05]
  const SEALED: Block := [0x21, 0x92, 0x3f, 0xf4, 0xbb, 0x2a, 0x50, 0xf7,
                          0x76, 0x36, 0xf6, 0x04, 0xd9, 0x89, 0x6c, 0xbf]

  lemma PlainColumns()
    ensures Column(PLAIN, 0) == [0x00, 0x11, 0x22, 0x33]
    ensures Column(PLAIN, 1) == [0x44, 0x55, 0x66, 0x77]
    ensures Column(PLAIN, 2) == [0x88, 0x99, 0xaa, 0xbb]
    ensures Column(PLAIN, 3) == [0xcc, 0xdd, 0xee, 0xff]
  {
    hide Column;
    ColumnIs(PLAIN, 0, [0x00, 0x11, 0x22, 0x33]);
    ColumnIs(PLAIN, 1, [0x44, 0x55, 0x66, 0x77]);
    ColumnIs(PLAIN, 2, [0x88, 0x99, 0xaa, 0xbb]);
    ColumnIs(PLAIN, 3, [0xcc, 0xdd, 0xee, 0xff]);
  }

  lemma Round0Columns()
    ensures Column(ROUND0, 0) == [0x00, 0x10, 0x20, 0x30]
    ensures Column(ROUND0, 1) == [0x40, 0x50, 0x60, 0x70]
    ensures Column(ROUND0, 2) == [0x80, 0x90, 0xa0, 0xb0]
    ensures Column(ROUND0, 3) == [0xc0, 0xd0, 0xe0, 0xf0]
  {
    hide Column;
    ColumnIs(ROUND0, 0, [0x00, 0x10, 0x20, 0x30]);
    ColumnIs(ROUND0, 1, [0x40, 0x50, 0x60, 0x70]);
    ColumnIs(ROUND0, 2, [0x80, 0x90, 0xa0, 0xb0]);
    ColumnIs(ROUND0, 3, [0xc0, 0xd0, 0xe0, 0xf0]);
  }

  lemma Round1Columns()
    ensures Column(ROUND1, 0) == [0x4f, 0x63, 0x76, 0x06]
    ensures Column(ROUND1, 1) == [0x43, 0xe0, 0xaa, 0x85]
    ensures Column(ROUND1, 2) == [0xef, 0xa7, 0x21, 0x32]
    ensures Column(ROUND1, 3) == [0x01, 0xa4, 0xe7, 0x05]
  {
    hide Column;
    ColumnIs(ROUND1, 0, [0x4f, 0x63, 0x76, 0x06]);
    ColumnIs(ROUND1, 1, [0x43, 0xe0, 0xaa, 0x85]);
    ColumnIs(ROUND1, 2, [0xef, 0xa7, 0x21, 0x32]);
    ColumnIs(ROUND1, 3, [0x01, 0xa4, 0xe7, 0x05]);
  }

  lemma SealedColumns()
    ensures Column(SEALED, 0) == [0x21, 0x92, 0x3f, 0xf4]
    ensures Column(SEALED, 1) == [0xbb, 0x2a, 0x50, 0xf7]
    ensures Column(SEALED, 2) == [0x76, 0x36, 0xf6, 0x04]
    ensures Column(SEALED, 3) == [0xd9, 0x89, 0x6c, 0xbf]
  {
    hide Column;
    ColumnIs(SEALED, 0, [0x21, 0x92, 0x3f, 0xf4]);
    ColumnIs(SEALED, 1, [0xbb, 0x2a, 0x50, 0xf7]);
    ColumnIs(SEALED, 2, [0x76, 0x36, 0xf6, 0x04]);
    ColumnIs(SEALED, 3, [0xd9, 0x89, 0x6c, 0xbf]);
  }

  lemma FirstRoundColumn0()
    ensures ColumnGives(0x00, 0x50, 0xa0, 0xf0, [0x10, 0x11, 0x12, 0x13], [0x4f, 0x63, 0x76, 0x06])
  {
    hide MixWord;
    Mix(0x63, 0x53, 0xe0, 0x8c);
  }

  lemma FirstRoundColumn1()
    ensures ColumnGives(0x40, 0x90, 0xe0, 0x30, [0x14, 0x15, 0x16, 0x17], [0x43, 0xe0, 0xaa, 0x85])
  {
    hide MixWord;
    Mix(0x09, 0x60, 0xe1, 0x04);
  }

  lemma FirstRoundColumn2()
    ensures ColumnGives(0x80, 0xd0, 0x20, 0x70, [0x18, 0x19, 0x1a, 0x1b], [0xef, 0xa7, 0x21, 0x32])
  {
    hide MixWord;
    Mix(0xcd, 0x70, 0xb7, 0x51);
  }

  lemma FirstRoundColumn3()
    ensures ColumnGives(0xc0, 0x10, 0x60, 0xb0, [0x1c, 0x1d, 0x1e, 0x1f], [0x01, 0xa4, 0xe7, 0x05])
  {
    hide MixWord;
    Mix(0xba, 0xca, 0xd0, 0xe7);
  }

  /** The values of the first round are those of the standard, too. */
  lemma FirstRound()
    ensures RoundGives(ROUND0, Join(W4, W5, W6, W7), ROUND1)
  {
    hide ColumnGives, RoundGives, Join, Column;
    Round1Columns();
    FirstRoundColumn0(); FirstRoundColumn1(); FirstRoundColumn2(); FirstRoundColumn3();
    ColumnsOfJoin(W4, W5, W6, W7);
    FromColumns(ROUND0, Join(W4, W5, W6, W7), ROUND1);
  }

  predicate FirstKeyGives(s: Block, k: Block, t: Block) { AddRoundKey(s, k) == t }
  predicate LastRoundGives(s: Block, k: Block, t: Block) { AddRoundKey(ShiftRows(SubBytes(s)), k) == t }

  predicate KeyGives(s: Word, k: Word, t: Word) { XorWord(s, k) == t }

  lemma FirstKeyColumns()
    ensures KeyGives([0x00, 0x11, 0x22, 0x33], [0x00, 0x01, 0x02, 0x03], [0x00, 0x10, 0x20, 0x30])
    ensures KeyGives([0x44, 0x55, 0x66, 0x77], [0x04, 0x05, 0x06, 0x07], [0x40, 0x50, 0x60, 0x70])
    ensures KeyGives([0x88, 0x99, 0xaa, 0xbb], [0x08, 0x09, 0x0a, 0x0b], [0x80, 0x90, 0xa0, 0xb0])
    ensures KeyGives([0xcc, 0xdd, 0xee, 0xff], [0x0c, 0x0d, 0x0e, 0x0f], [0xc0, 0xd0, 0xe0, 0xf0])
  {}

  lemma FirstKey()
    ensures FirstKeyGives(PLAIN, Join(W0, W1, W2, W3), ROUND0)
  {
    hide AddRoundKey, XorWord, Join, Column;
    FirstKeyColumns();
    var k := Join(W0, W1, W2, W3);
    PlainColumns();
    Round0Columns();
    ColumnsOfJoin(W0, W1, W2, W3);
    KeyColumn(PLAIN, k, 0); KeyColumn(PLAIN, k, 1); KeyColumn(PLAIN, k, 2); KeyColumn(PLAIN, k, 3);
    SameColumns(AddRoundKey(PLAIN, k), ROUND0);
  }

  predicate LastColumnGives(s: Word, k: Word, t: Word) { XorWord(SubWord(s), k) == t }

  lemma LastColumn0()
    ensures LastColumnGives([0x4f, 0xe0, 0x21, 0x05], [0xa5, 0x73, 0xc2, 0x9f], [0x21, 0x92, 0x3f, 0xf4])
  {}

  lemma LastColumn1()
    ensures LastColumnGives([0x43, 0xa7, 0xe7, 0x06], [0xa1, 0x76, 0xc4, 0x98], [0xbb, 0x2a, 0x50, 0xf7])
  {}

  lemma LastColumn2()
    ensures LastColumnGives([0xef, 0xa4, 0x76, 0x85], [0xa9, 0x7f, 0xce, 0x93], [0x76, 0x36, 0xf6, 0x04])
  {}

  lemma LastColumn3()
    ensures LastColumnGives([0x01, 0x63, 0xaa, 0x32], [0xa5, 0x72, 0xc0, 0x9c], [0xd9, 0x89, 0x6c, 0xbf])
  {}

  lemma LastRound()
    ensures LastRoundGives(ROUND1, Join(W8, W9, W10, W11), SEALED)
  {
    hide AddRoundKey, ShiftRows, SubBytes, SubWord, XorWord, Join, Column;
    SealedColumns();
    LastColumn0(); LastColumn1(); LastColumn2(); LastColumn3();
    ShiftedColumns(ROUND1);
    ColumnsOfJoin(W8, W9, W10, W11);
    var u, k := ShiftRows(SubBytes(ROUND1)), Join(W8, W9, W10, W11);
    KeyColumn(u, k, 0); KeyColumn(u, k, 1); KeyColumn(u, k, 2); KeyColumn(u, k, 3);
    SameColumns(AddRoundKey(u, k), SEALED);
  }

  const THREE_KEYS: seq<bv8> := Join(W0, W1, W2, W3) + Join(W4, W5, W6, W7) + Join(W8, W9, W10, W11)

  /** The cipher with the first three round keys. */
  lemma TwoRounds()
    ensures Cipher(PLAIN, THREE_KEYS, 3) == SEALED
  {
    hide AddRoundKey, MixColumns, ShiftRows, SubBytes, Join;
    var a, b, c := Join(W0, W1, W2, W3), Join(W4, W5, W6, W7), Join(W8, W9, W10, W11);
    var w := THREE_KEYS;
    assert RoundKey(w, 0) == a && RoundKey(w, 1) == b && RoundKey(w, 2) == c;
    FirstKey();
    FirstRound();
    LastRound();
    assert Forward(PLAIN, w, 0) == ROUND0;
    assert Forward(PLAIN, w, 1) == ROUND1;
  }
}
