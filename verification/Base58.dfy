/** CryptoNote's Base58 (CryptoNight/base58.cpp): eight bytes at a time become eleven letters,
    a shorter last block as many letters as it needs. */
module Base58 {
  import opened Bytes
  import opened Positional
  import IntUtil

  /** The digits and letters without 0, I, O and l. */
  const ALPHABET: string :=
    "123456789" + ("ABCDEFGH" + ("JKLMN" + ("PQRSTUVWXYZ" + ("abcdefghijk" + "mnopqrstuvwxyz"))))
  const ENCODED_BLOCK_SIZES: seq<nat> := [0, 2, 3, 5, 6, 7, 9, 10, 11]

  function EncodedSize(n: nat): (w: nat)
    requires n <= 8
    ensures w <= 11
  {
    ENCODED_BLOCK_SIZES[n]
  }

  /** decoded_block_sizes: the inverse table, -1 where no block has that many letters. */
  function DecodedSize(w: nat): (n: int)
    ensures -1 <= n <= 8
    ensures n >= 0 ==> EncodedSize(n) == w
  {
    SizesIncrease();
    if w == 0 then 0 else if w == 2 then 1 else if w == 3 then 2 else if w == 5 then 3
    else if w == 6 then 4 else if w == 7 then 5 else if w == 9 then 6 else if w == 10 then 7
    else if w == 11 then 8 else -1
  }

  lemma SizesIncrease()
    ensures EncodedSize(0) == 0 && EncodedSize(1) == 2 && EncodedSize(2) == 3 && EncodedSize(3) == 5
    ensures EncodedSize(4) == 6 && EncodedSize(5) == 7 && EncodedSize(6) == 9 && EncodedSize(7) == 10
            && EncodedSize(8) == 11
  {}

  // ----- letters

  /** Where `c` is in `s`, the last place if there are several; -1 if nowhere. */
  function Find(s: string, c: char): (r: int)
    ensures -1 <= r < |s|
    ensures r >= 0 ==> s[r] == c
    ensures r == -1 ==> c !in s
  {
    if s == "" then -1
    else if s[|s| - 1] == c then |s| - 1
    else Find(s[..|s| - 1], c)
  }

  /** reverse_alphabet: the digit a letter stands for, -1 for any other character. */
  function Reverse(c: char): (r: int)
    ensures -1 <= r < 58
  {
    assert |ALPHABET| == 58;
    Find(ALPHABET, c)
  }

  function LetterCode(d: nat): nat
    requires d < 58
  {
    if d < 9 then 49 + d
    else if d < 17 then 56 + d
    else if d < 22 then 57 + d
    else if d < 33 then 58 + d
    else if d < 44 then 64 + d
    else 65 + d
  }

  lemma AlphabetAt(d: nat)
    requires d < 58
    ensures |ALPHABET| == 58 && ALPHABET[d] as int == LetterCode(d)
  {
    if d < 9 {
      assert ALPHABET[d] == "123456789"[d];
    } else if d < 17 {
      assert ALPHABET[d] == "ABCDEFGH"[d - 9];
    } else if d < 22 {
      assert ALPHABET[d] == "JKLMN"[d - 17];
    } else if d < 33 {
      assert ALPHABET[d] == "PQRSTUVWXYZ"[d - 22];
    } else if d < 44 {
      assert ALPHABET[d] == "abcdefghijk"[d - 33];
    } else {
      assert ALPHABET[d] == "mnopqrstuvwxyz"[d - 44];
    }
  }

  lemma ReverseOfLetter(d: nat)
    requires d < 58
    ensures |ALPHABET| == 58 && Reverse(ALPHABET[d]) == d
  {
    AlphabetAt(d);
    var r := Reverse(ALPHABET[d]);
    AlphabetAt(r);
  }

  function Letter(d: nat): char
    requires d < 58
  {
    assert |ALPHABET| == 58;
    ALPHABET[d]
  }

  function Text(ds: seq<nat>): (s: string)
    requires Digits(58, ds)
    ensures |s| == |ds|
  {
    seq(|ds|, i requires 0 <= i < |ds| => Letter(ds[i]))
  }

  predicate AllLetters(s: string) {
    forall i :: 0 <= i < |s| ==> Reverse(s[i]) >= 0
  }

  function DigitsOf(s: string): (ds: seq<nat>)
    requires AllLetters(s)
    ensures |ds| == |s| && Digits(58, ds)
  {
    seq(|s|, i requires 0 <= i < |s| => Reverse(s[i]))
  }

  lemma DigitsOfText(ds: seq<nat>)
    requires Digits(58, ds)
    ensures AllLetters(Text(ds)) && DigitsOf(Text(ds)) == ds
  {
    forall i | 0 <= i < |ds| ensures Reverse(Text(ds)[i]) == ds[i] {
      ReverseOfLetter(ds[i]);
    }
  }

  lemma TextOfDigits(s: string)
    requires AllLetters(s)
    ensures Text(DigitsOf(s)) == s
  {}

  // ----- one block

  /** The number a block of bytes is, high byte first (uint_8be_to_64). */
  function Number(block: seq<Byte>): nat {
    FromDigits(256, block)
  }

  /** The last `size` bytes of a number, high byte first (uint_64_to_8be). */
  function BytesOf(v: nat, size: nat): (b: seq<Byte>)
    ensures |b| == size
  {
    ToDigits(256, v, size)
  }

  /** Every block's numbers fit the letters it is given. */
  lemma BlockFits(n: nat)
    requires n <= 8
    ensures Pow(256, n) <= Pow(58, EncodedSize(n))
    ensures Pow(256, n) <= TWO_64
  {
    SizesIncrease();
    Powers();
    assert n == 0 || n == 1 || n == 2 || n == 3 || n == 4 || n == 5 || n == 6 || n == 7 || n == 8;
  }

  lemma Powers()
    ensures Pow(256, 0) == 1 && Pow(256, 1) == 0x100 && Pow(256, 2) == 0x10000 && Pow(256, 3) == 0x100_0000
    ensures Pow(256, 4) == 0x1_0000_0000 && Pow(256, 5) == 0x100_0000_0000 && Pow(256, 6) == 0x1_0000_0000_0000
    ensures Pow(256, 7) == 0x100_0000_0000_0000 && Pow(256, 8) == TWO_64
    ensures Pow(58, 0) == 1 && Pow(58, 2) == 3364 && Pow(58, 3) == 195112 && Pow(58, 5) == 656356768
    ensures Pow(58, 6) == 38068692544 && Pow(58, 7) == 2207984167552 && Pow(58, 9) == 7427658739644928
    ensures Pow(58, 10) == 430804206899405824 && Pow(58, 11) == 24986644000165537792
  {
    assert Pow(58, 1) == 58 && Pow(58, 4) == 11316496 && Pow(58, 8) == 128063081718016;
  }

  function EncodeBlock(block: seq<Byte>): (s: string)
    requires 1 <= |block| <= 8
    ensures |s| == EncodedSize(|block|)
  {
    Text(ToDigits(58, Number(block), EncodedSize(|block|)))
  }

  /** Refused: a number of letters no block has, a character that is no letter, a number too big
      for the bytes. */
  function DecodeBlock(s: string): (r: Option<seq<Byte>>)
    requires |s| <= 11
    ensures r.Some? ==> |r.value| == DecodedSize(|s|) > 0
  {
    var n := DecodedSize(|s|);
    if n <= 0 || !AllLetters(s) then None
    else
      var v := FromDigits(58, DigitsOf(s));
      if v < Pow(256, n) then Some(BytesOf(v, n)) else None
  }

  lemma BlockRoundTrip(block: seq<Byte>)
    requires 1 <= |block| <= 8
    ensures DecodeBlock(EncodeBlock(block)) == Some(block)
  {
    hide Reverse, Letter, Text, DigitsOf, AllLetters;
    var v, w := Number(block), EncodedSize(|block|);
    SizesIncrease();
    FromDigitsBound(256, block);
    BlockFits(|block|);
    hide Pow, FromDigits, ToDigits;
    DigitsOfText(ToDigits(58, v, w));
    FromDigitsInvertsToDigits(58, v, w);
    ToDigitsInvertsFromDigits(256, block);
    assert DecodedSize(w) == |block|;
  }

  lemma AcceptedBlockRoundTrip(s: string)
    requires |s| <= 11 && DecodeBlock(s).Some?
    ensures 1 <= |DecodeBlock(s).value| <= 8 && EncodeBlock(DecodeBlock(s).value) == s
  {
    var n := DecodedSize(|s|);
    var v := FromDigits(58, DigitsOf(s));
    FromDigitsInvertsToDigits(256, v, n);
    ToDigitsInvertsFromDigits(58, DigitsOf(s));
    TextOfDigits(s);
  }

  // ----- whole strings

  function Encode(data: seq<Byte>): string
    decreases |data|
  {
    if data == [] then ""
    else if |data| < 8 then EncodeBlock(data)
    else EncodeBlock(data[..8]) + Encode(data[8..])
  }

  lemma {:induction false} EncodedLength(data: seq<Byte>)
    ensures |Encode(data)| == |data| / 8 * 11 + EncodedSize(|data| % 8)
    decreases |data|
  {
    hide EncodeBlock;
    SizesIncrease();
    if |data| >= 8 {
      EncodedLength(data[8..]);
    }
  }

  function Decode(s: string): (r: Option<seq<Byte>>)
    decreases |s|
  {
    if s == "" then Some([])
    else if |s| < 11 then DecodeBlock(s)
    else
      var first :- DecodeBlock(s[..11]);
      var rest :- Decode(s[11..]);
      Some(first + rest)
  }

  lemma LessOneBlock(n: nat)
    requires n >= 11
    ensures (n - 11) % 11 == n % 11 && (n - 11) / 11 == n / 11 - 1
  {}

  lemma {:induction false} DecodedLength(s: string)
    requires Decode(s).Some?
    ensures DecodedSize(|s| % 11) >= 0 && |Decode(s).value| == |s| / 11 * 8 + DecodedSize(|s| % 11)
    decreases |s|
  {
    hide DecodeBlock, EncodedSize;
    if |s| >= 11 {
      assert DecodedSize(11) == 8;
      hide DecodedSize;
      LessOneBlock(|s|);
      DecodedLength(s[11..]);
    }
  }

  /** Decoding undoes encoding, for every string of bytes. */
  lemma {:induction false} DecodeInvertsEncode(data: seq<Byte>)
    ensures Decode(Encode(data)) == Some(data)
    decreases |data|
  {
    SizesIncrease();
    hide EncodeBlock, DecodeBlock;
    if data != [] {
      if |data| < 8 {
        BlockRoundTrip(data);
      } else {
        BlockRoundTrip(data[..8]);
        DecodeInvertsEncode(data[8..]);
        var s := Encode(data);
        assert s[..11] == EncodeBlock(data[..8]) && s[11..] == Encode(data[8..]);
        assert data[..8] + data[8..] == data;
      }
    }
  }

  /** And every string the decoder accepts is the encoding of what it decodes to. */
  lemma {:induction false} EncodeInvertsDecode(s: string)
    requires Decode(s).Some?
    ensures Encode(Decode(s).value) == s
    decreases |s|
  {
    SizesIncrease();
    hide EncodeBlock, DecodeBlock;
    if s != "" {
      if |s| < 11 {
        AcceptedBlockRoundTrip(s);
        assert |DecodeBlock(s).value| < 8;
      } else {
        AcceptedBlockRoundTrip(s[..11]);
        EncodeInvertsDecode(s[11..]);
        var first, rest := DecodeBlock(s[..11]).value, Decode(s[11..]).value;
        assert (first + rest)[..8] == first && (first + rest)[8..] == rest;
        assert s[..11] + s[11..] == s;
      }
    }
  }

  /** So the accepted strings are exactly the encodings. */
  lemma AcceptsExactlyEncodings(s: string, data: seq<Byte>)
    ensures Decode(s) == Some(data) <==> s == Encode(data)
  {
    DecodeInvertsEncode(data);
    if Decode(s) == Some(data) {
      EncodeInvertsDecode(s);
    }
  }

  // ----- the loops

  function Ones(width: nat): (s: string)
    ensures |s| == width
  {
    seq(width, _ => '1')
  }

  lemma {:induction false} ZeroDigits(width: nat)
    ensures Text(ToDigits(58, 0, width)) == Ones(width)
  {
    AlphabetAt(0);
    if width > 0 {
      ZeroDigits(width - 1);
      assert Text(ToDigits(58, 0, width)) == Text(ToDigits(58, 0, width - 1)) + ['1'];
    }
  }

  /** `num` is what the digits up to place `i` are still to show. */
  ghost predicate Pending(v: nat, w: nat, num: nat, i: nat) {
    i <= w && num < Pow(58, i) && ToDigits(58, v, w)[..i] == ToDigits(58, num, i)
  }

  lemma DigitStep(v: nat, w: nat, num: nat, i: nat)
    requires Pending(v, w, num, i + 1)
    ensures Pending(v, w, num / 58, i)
    ensures Text(ToDigits(58, v, w))[i] == Letter(num % 58)
  {
    assert ToDigits(58, v, w)[..i] == ToDigits(58, v, w)[..i + 1][..i];
    assert ToDigits(58, v, w)[i] == ToDigits(58, v, w)[..i + 1][i];
  }

  lemma WriteLetter(goal: string, i: nat)
    requires i < |goal|
    ensures (Ones(i + 1) + goal[i + 1..])[i := goal[i]] == Ones(i) + goal[i..]
  {}

  lemma NothingPending(v: nat, w: nat, i: nat)
    requires Pending(v, w, 0, i)
    ensures Ones(i) + Text(ToDigits(58, v, w))[i..] == Text(ToDigits(58, v, w))
  {
    ZeroDigits(i);
    var goal := Text(ToDigits(58, v, w));
    assert goal[..i] == Text(ToDigits(58, v, w)[..i]);
    assert goal == goal[..i] + goal[i..];
  }

  lemma AllPending(v: nat, w: nat)
    requires v < Pow(58, w)
    ensures Pending(v, w, v, w)
    ensures Ones(w) + Text(ToDigits(58, v, w))[w..] == Ones(w)
  {
    assert ToDigits(58, v, w)[..w] == ToDigits(58, v, w);
  }

  lemma NoPlaceLeft(v: nat, w: nat, num: nat)
    requires Pending(v, w, num, 0)
    ensures num == 0
  {}

  /** encode_block: the letters start as zeros and are written from the last one backwards;
      none is written before the first. */
  method EncodeLetters(block: seq<Byte>) returns (letters: string)
    requires 1 <= |block| <= 8
    ensures letters == EncodeBlock(block)
  {
    var w := EncodedSize(|block|);
    ghost var v, goal := Number(block), EncodeBlock(block);
    FromDigitsBound(256, block);
    BlockFits(|block|);
    AllPending(v, w);
    hide *;
    letters := Ones(w);
    var num: nat := Number(block);
    var i: int := w - 1;
    while 0 < num
      invariant -1 <= i < w == |goal| && 0 <= num && Pending(v, w, num, i + 1)
      invariant letters == Ones(i + 1) + goal[i + 1..]
      decreases num
    {
      if i < 0 {
        NoPlaceLeft(v, w, num);
      }
      DigitStep(v, w, num, i);
      WriteLetter(goal, i);
      var remainder := num % 58;
      num := num / 58;
      letters := letters[i := Letter(remainder)];
      i := i - 1;
    }
    NothingPending(v, w, i + 1);
  }

  lemma DigitsOfSuffix(s: string, i: nat)
    requires i < |s| && AllLetters(s[i + 1..]) && Reverse(s[i]) >= 0
    ensures AllLetters(s[i..])
    ensures FromDigits(58, DigitsOf(s[i..]))
         == Reverse(s[i]) * Pow(58, |s| - i - 1) + FromDigits(58, DigitsOf(s[i + 1..]))
  {
    assert s[i..] == [s[i]] + s[i + 1..];
    assert DigitsOf(s[i..]) == [Reverse(s[i]) as nat] + DigitsOf(s[i + 1..]);
    FromDigitsCons(58, Reverse(s[i]), DigitsOf(s[i + 1..]));
  }

  lemma TooBig(s: string, i: nat)
    requires |s| <= 11 && i <= |s| && AllLetters(s[i..]) && FromDigits(58, DigitsOf(s[i..])) >= TWO_64
    ensures DecodeBlock(s).None?
  {
    if DecodedSize(|s|) > 0 && AllLetters(s) {
      SuffixBelow(58, DigitsOf(s), i);
      assert DigitsOf(s)[i..] == DigitsOf(s[i..]);
      BlockFits(DecodedSize(|s|));
    }
  }

  lemma PowBelow(k: nat)
    requires k <= 10
    ensures Pow(58, k) < TWO_64
    ensures Pow(58, k + 1) == 58 * Pow(58, k)
  {
    Powers();
    assert Pow(58, 1) == 58 && Pow(58, 4) == 11316496 && Pow(58, 8) == 128063081718016;
    assert k == 0 || k == 1 || k == 2 || k == 3 || k == 4 || k == 5 || k == 6 || k == 7 || k == 8 || k == 9 || k == 10;
  }

  /** The carry test of the decoding loop is exact: it fires when, and only when, the sum does not
      fit 64 bits. */
  method AddDigit(resNum: U64, order: U64, digit: nat) returns (overflow: bool, tmp: U64)
    requires digit < 58
    ensures overflow <==> order * digit + resNum >= TWO_64
    ensures !overflow ==> tmp == order * digit + resNum
  {
    var lo, hi := IntUtil.Mul128(order, digit);
    IntUtil.WrapCarry(resNum, lo);
    tmp := IntUtil.Wrap(resNum + lo);
    overflow := tmp < resNum || 0 != hi;
    assert hi >= 1 ==> hi * TWO_64 >= TWO_64;
  }

  /** decode_block */
  method DecodeLetters(block: string) returns (r: Option<seq<Byte>>)
    requires 1 <= |block| <= 11
    ensures r == DecodeBlock(block)
  {
    hide FromDigits, Pow, DigitsOf, Reverse, IntUtil.Wrap, ToDigits;
    var resSize := DecodedSize(|block|);
    if resSize <= 0 {
      return None;
    }
    var resNum: U64, order: U64 := 0, 1;
    var i: int := |block| - 1;
    EmptyIsZero();
    while 0 <= i
      invariant -1 <= i < |block| && AllLetters(block[i + 1..])
      invariant resNum == FromDigits(58, DigitsOf(block[i + 1..]))
      invariant order == IntUtil.Wrap(Pow(58, |block| - i - 1))
    {
      var digit := Reverse(block[i]);
      if digit < 0 {
        return None;
      }
      PowBelow(|block| - i - 1);
      IntUtil.WrapFits(Pow(58, |block| - i - 1));
      DigitsOfSuffix(block, i);
      var overflow, tmp := AddDigit(resNum, order, digit);
      if overflow {
        TooBig(block, i);
        return None;
      }
      resNum := tmp;
      order := IntUtil.Wrap(order * 58);
      i := i - 1;
    }
    assert block[i + 1..] == block;
    BlockFits(resSize);
    ShiftIsPower(resSize);
    if resSize < 8 && ShiftLeft1(8 * resSize) <= resNum {
      return None;
    }
    r := Some(BytesOf(resNum, resSize));
  }

  lemma EmptyIsZero()
    ensures FromDigits(58, DigitsOf("")) == 0
    ensures IntUtil.Wrap(Pow(58, 0)) == 1
  {
    assert DigitsOf("") == [];
  }

  /** UINT64_C(1) << n */
  function ShiftLeft1(n: nat): nat {
    Pow2(n)
  }

  lemma {:induction false} ShiftIsPower(n: nat)
    ensures ShiftLeft1(8 * n) == Pow(256, n)
    ensures n == 8 ==> Pow(256, n) == TWO_64
  {
    if n > 0 {
      ShiftIsPower(n - 1);
      Pow2Adds(8, 8 * (n - 1));
      assert Pow2(8) == 256;
    }
    if n == 8 {
      Powers();
    }
  }

  lemma {:induction false} EncodeConcat(a: seq<Byte>, b: seq<Byte>)
    requires |a| % 8 == 0
    ensures Encode(a + b) == Encode(a) + Encode(b)
    decreases |a|
  {
    hide EncodeBlock, EncodedSize;
    if a == [] {
      assert a + b == b;
    } else {
      assert (a + b)[..8] == a[..8] && (a + b)[8..] == a[8..] + b;
      EncodeConcat(a[8..], b);
    }
  }

  lemma FullBlock(data: seq<Byte>, i: nat)
    requires 8 * i + 8 <= |data|
    ensures Encode(data[..8 * i + 8]) == Encode(data[..8 * i]) + EncodeBlock(data[8 * i..8 * i + 8])
  {
    var last := data[8 * i..8 * i + 8];
    assert data[..8 * i + 8] == data[..8 * i] + last;
    EncodeConcat(data[..8 * i], last);
    assert last[..8] == last && last[8..] == [];
    assert EncodeBlock(last) + "" == EncodeBlock(last);
  }

  /** encode: a buffer of the final size, filled with the zero letter, one block written after another. */
  method EncodeString(data: seq<Byte>) returns (res: string)
    ensures res == Encode(data)
  {
    if data == [] {
      return "";
    }
    EncodeOfEmpty();
    SizesIncrease();
    hide Encode, EncodeBlock, EncodedSize;
    var fullBlockCount, lastBlockSize := |data| / 8, |data| % 8;
    var resSize := fullBlockCount * 11 + EncodedSize(lastBlockSize);
    res := seq(resSize, _ => '1');
    var i := 0;
    while i < fullBlockCount
      invariant i <= fullBlockCount && |res| == resSize
      invariant res[..11 * i] == Encode(data[..8 * i])
    {
      var letters := EncodeLetters(data[8 * i..8 * i + 8]);
      FullBlock(data, i);
      res := res[..11 * i] + letters + res[11 * i + 11..];
      i := i + 1;
    }
    EncodeConcat(data[..8 * i], data[8 * i..]);
    assert data == data[..8 * i] + data[8 * i..];
    if 0 < lastBlockSize {
      var letters := EncodeLetters(data[8 * i..]);
      EncodeOfShort(data[8 * i..]);
      res := res[..11 * i] + letters;
    } else {
      assert res[..11 * i] == res && data[8 * i..] == [];
    }
  }

  lemma EncodeOfEmpty()
    ensures Encode([]) == ""
  {}

  lemma EncodeOfShort(data: seq<Byte>)
    requires 1 <= |data| < 8
    ensures Encode(data) == EncodeBlock(data)
  {}

  /** The decoder, read from a point between two blocks. */
  function Resume(done: seq<Byte>, s: string): Option<seq<Byte>> {
    match Decode(s)
    case None => None
    case Some(more) => Some(done + more)
  }

  lemma ResumeStep(done: seq<Byte>, s: string)
    requires |s| >= 11
    ensures Resume(done, s)
         == if DecodeBlock(s[..11]).None? then None else Resume(done + DecodeBlock(s[..11]).value, s[11..])
  {
    var first := DecodeBlock(s[..11]);
    var rest := Decode(s[11..]);
    if first.Some? && rest.Some? {
      assert done + (first.value + rest.value) == (done + first.value) + rest.value;
    }
  }

  /** decode: refuses a length no encoding has before it looks at any letter. */
  method DecodeString(enc: string) returns (r: Option<seq<Byte>>)
    ensures r == Decode(enc)
  {
    if enc == "" {
      return Some([]);
    }
    var fullBlockCount, lastBlockSize := |enc| / 11, |enc| % 11;
    var lastBlockDecodedSize := DecodedSize(lastBlockSize);
    if lastBlockDecodedSize < 0 {
      BadLength(enc);
      return None;
    }
    hide Decode, DecodeBlock;
    var data: seq<Byte> := [];
    var i := 0;
    ResumeNothing(enc);
    assert enc[11 * 0..] == enc;
    while i < fullBlockCount
      invariant i <= fullBlockCount
      invariant Decode(enc) == Resume(data, enc[11 * i..])
    {
      ResumeStep(data, enc[11 * i..]);
      assert enc[11 * i..][..11] == enc[11 * i..11 * i + 11] && enc[11 * i..][11..] == enc[11 * (i + 1)..];
      var block := DecodeLetters(enc[11 * i..11 * i + 11]);
      if block.None? {
        return None;
      }
      data := data + block.value;
      i := i + 1;
    }
    ResumeShort(data, enc[11 * i..]);
    if 0 < lastBlockSize {
      var block := DecodeLetters(enc[11 * i..]);
      if block.None? {
        return None;
      }
      data := data + block.value;
    }
    r := Some(data);
  }

  lemma {:induction false} BadLength(s: string)
    requires DecodedSize(|s| % 11) < 0
    ensures Decode(s).None?
    decreases |s|
  {
    if |s| >= 11 {
      BadLength(s[11..]);
    }
  }

  lemma ResumeNothing(s: string)
    ensures Resume([], s) == Decode(s)
  {
    assert Decode(s).Some? ==> [] + Decode(s).value == Decode(s).value;
  }

  lemma ResumeShort(done: seq<Byte>, s: string)
    requires |s| < 11
    ensures s == "" ==> Resume(done, s) == Some(done)
    ensures s != "" ==> Resume(done, s) == if DecodeBlock(s).None? then None else Some(done + DecodeBlock(s).value)
  {
    assert done + [] == done;
  }
}
