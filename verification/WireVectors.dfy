/** Known bytes (varint.h, serialization/, cryptonote_basic.h and base58.cpp in CryptoNight): a block with every kind of
    input and output, spelled out. The round trips would hold of any format; these are the bytes of this one. */
module WireVectors {
  import opened Bytes
  import opened Archive
  import opened Cryptonote
  import Base58
  import Positional
  import Varint

  // ----- numbers

  /** The groups of seven bits, the lowest first. */
  function GroupsValue(s: seq<Byte>): nat {
    if s == [] then 0 else s[0] % 128 + 128 * GroupsValue(s[1..])
  }

  /** Every byte of a varint but the last has its high bit set, and the low bits are the groups of the number. */
  lemma {:induction false} VarintGroups(v: nat)
    ensures var s := Varint.Encode(v);
            GroupsValue(s) == v && forall i :: 0 <= i < |s| ==> (s[i] >= 128 <==> i < |s| - 1)
  {
    if v < 128 {
      assert [v][1..] == [];
    } else {
      VarintGroups(v / 128);
      var s, rest := Varint.Encode(v), Varint.Encode(v / 128);
      assert s[1..] == rest;
      forall i | 0 <= i < |s| ensures s[i] >= 128 <==> i < |s| - 1 {
        if i > 0 { assert s[i] == rest[i - 1]; }
      }
    }
  }

  lemma Numbers()
    ensures Varint.Encode(300) == [0xac, 0x02] && Varint.Encode(130) == [0x82, 0x01]
    ensures PrintUint(0x0a0b_0c0d, 4) == [0x0d, 0x0c, 0x0b, 0x0a]
  {
    assert Varint.Encode(2) == [2] && Varint.Encode(1) == [1];
  }

  lemma SmallNumber(v: nat)
    requires v < 128
    ensures Varint.Encode(v) == [v]
  {}

  // ----- a block

  function Fill(n: nat, b: Byte): (s: seq<Byte>)
    ensures |s| == n
  {
    seq(n, _ => b)
  }

  const GEN := Gen(300)
  const TO_SCRIPT := ToScript(Fill(32, 1), 2, [7])
  const TO_SCRIPT_HASH := ToScriptHash(Fill(32, 2), 3, Script([Fill(32, 3)], [8]), [9])
  const TO_KEY := ToKey(5, [6, 130], Fill(32, 4))
  const OUTPUTS: seq<TxOut> :=
    [TxOut(1, OutScript(Script([Fill(32, 5)], [10, 11]))), TxOut(2, OutScriptHash(Fill(32, 6))),
     TxOut(3, OutKey(Fill(32, 7)))]
  const PREFIX := Prefix(1, 60, [GEN, TO_SCRIPT, TO_SCRIPT_HASH, TO_KEY], OUTPUTS, [12, 13])
  const TRANSACTION := Transaction(PREFIX, [[], [], [], [Fill(64, 14), Fill(64, 15)]])
  const HEADER := Header(1, 0, 300, Fill(32, 8), 0x0a0b_0c0d)
  const BLOCK := Block(HEADER, TRANSACTION, [Fill(32, 9)])

  const INPUT_BYTES: seq<Byte> :=
    [4] + ([0xff, 0xac, 0x02] +
    (([0x00] + (Fill(32, 1) + [2, 1, 7])) +
    (([0x01] + (Fill(32, 2) + ([3, 1] + (Fill(32, 3) + [1, 8, 1, 9])))) +
    ([0x02, 5, 2, 6, 0x82, 0x01] + Fill(32, 4)))))
  const OUTPUT_BYTES: seq<Byte> :=
    [3] + (([1, 0x00, 1] + (Fill(32, 5) + [2, 10, 11])) + (([2, 0x01] + Fill(32, 6)) + ([3, 0x02] + Fill(32, 7))))
  const HEADER_BYTES: seq<Byte> := [1, 0, 0xac, 0x02] + (Fill(32, 8) + [0x0d, 0x0c, 0x0b, 0x0a])

  lemma VecOf<T>(show: T -> seq<Byte>, v: seq<T>)
    requires |v| < 128
    ensures PrintVec(show, v) == [|v|] + PrintAll(show, v)
  {
    SmallNumber(|v|);
  }

  lemma All1<T>(show: T -> seq<Byte>, a: T)
    ensures PrintAll(show, [a]) == show(a)
  {
    assert [a][1..] == [];
    assert show(a) + [] == show(a);
  }

  lemma All2<T>(show: T -> seq<Byte>, a: T, b: T)
    ensures PrintAll(show, [a, b]) == show(a) + show(b)
  {
    assert [a, b][1..] == [b];
    All1(show, b);
  }

  lemma All3<T>(show: T -> seq<Byte>, a: T, b: T, c: T)
    ensures PrintAll(show, [a, b, c]) == show(a) + (show(b) + show(c))
  {
    assert [a, b, c][1..] == [b, c];
    All2(show, b, c);
  }

  lemma All4<T>(show: T -> seq<Byte>, a: T, b: T, c: T, d: T)
    ensures PrintAll(show, [a, b, c, d]) == show(a) + (show(b) + (show(c) + show(d)))
  {
    assert [a, b, c, d][1..] == [b, c, d];
    All3(show, b, c, d);
  }

  lemma Bytes1(b: Byte)
    ensures PrintVec(PrintByte, [b]) == [1, b]
  {
    VecOf(PrintByte, [b]);
    All1(PrintByte, b);
  }

  lemma ScriptBytes(key: Blob32, script: seq<Byte>, printed: seq<Byte>)
    requires |script| < TWO_64 && PrintVec(PrintByte, script) == printed
    ensures PrintScript(Script([key], script)) == [1] + (key + printed)
  {
    VecOf(PrintBlob32, [key]);
    All1(PrintBlob32, key);
    Cat3([1], key, printed);
  }

  lemma Inputs()
    ensures PrintTxIn(GEN) == [0xff, 0xac, 0x02]
    ensures PrintTxIn(TO_SCRIPT) == [0x00] + (Fill(32, 1) + [2, 1, 7])
    ensures PrintTxIn(TO_SCRIPT_HASH) == [0x01] + (Fill(32, 2) + ([3, 1] + (Fill(32, 3) + [1, 8, 1, 9])))
    ensures PrintTxIn(TO_KEY) == [0x02, 5, 2, 6, 0x82, 0x01] + Fill(32, 4)
  {
    hide Varint.Encode, PrintVec, PrintAll, PrintScript;
    Numbers();
    Bytes1(7); Bytes1(8); Bytes1(9);
    SmallNumber(2); SmallNumber(3); SmallNumber(5); SmallNumber(6);
    ScriptBytes(Fill(32, 3), [8], [1, 8]);
    VecOf(PrintU64, [6, 130]);
    All2(PrintU64, 6, 130);
    assert [0xff] + [0xac, 0x02] == [0xff, 0xac, 0x02];
    assert [2] + [1, 7] == [2, 1, 7];
    var k := Fill(32, 3);
    assert [3] + (([1] + (k + [1, 8])) + [1, 9]) == [3, 1] + (k + [1, 8, 1, 9]);
    assert [0x02] + ([5] + (([2] + ([6] + [0x82, 0x01])) + Fill(32, 4))) == [0x02, 5, 2, 6, 0x82, 0x01] + Fill(32, 4);
  }

  lemma Outputs()
    ensures PrintTxOut(OUTPUTS[0]) == [1, 0x00, 1] + (Fill(32, 5) + [2, 10, 11])
    ensures PrintTxOut(OUTPUTS[1]) == [2, 0x01] + Fill(32, 6)
    ensures PrintTxOut(OUTPUTS[2]) == [3, 0x02] + Fill(32, 7)
  {
    hide Varint.Encode, PrintVec, PrintAll, PrintScript;
    SmallNumber(1); SmallNumber(2); SmallNumber(3);
    VecOf(PrintByte, [10, 11]);
    All2(PrintByte, 10, 11);
    assert [2] + ([10] + [11]) == [2, 10, 11];
    ScriptBytes(Fill(32, 5), [10, 11], [2, 10, 11]);
    var k := Fill(32, 5) + [2, 10, 11];
    assert [1] + ([0x00] + ([1] + k)) == [1, 0x00, 1] + k;
    assert [2] + ([0x01] + Fill(32, 6)) == [2, 0x01] + Fill(32, 6);
    assert [3] + ([0x02] + Fill(32, 7)) == [3, 0x02] + Fill(32, 7);
  }

  lemma PrefixBytes()
    ensures PrintPrefix(PREFIX) == [1] + ([60] + (INPUT_BYTES + (OUTPUT_BYTES + [2, 12, 13])))
  {
    hide Varint.Encode, PrintAll, PrintTxIn, PrintTxOut, Fill;
    SmallNumber(1); SmallNumber(60);
    Inputs();
    Outputs();
    VecOf(PrintTxIn, PREFIX.vin);
    All4(PrintTxIn, GEN, TO_SCRIPT, TO_SCRIPT_HASH, TO_KEY);
    VecOf(PrintTxOut, OUTPUTS);
    All3(PrintTxOut, OUTPUTS[0], OUTPUTS[1], OUTPUTS[2]);
    VecOf(PrintByte, [12, 13]);
    All2(PrintByte, 12, 13);
    hide PrintVec;
    assert [2] + ([12] + [13]) == [2, 12, 13];
  }

  lemma SignatureBytes()
    ensures PrintSignatures(TRANSACTION.signatures) == Fill(64, 14) + Fill(64, 15)
  {
    var none: seq<Blob64> := [];
    var two: seq<Blob64> := [Fill(64, 14), Fill(64, 15)];
    All2<Blob64>(PrintBlob64, Fill(64, 14), Fill(64, 15));
    hide Fill;
    var last: seq<seq<Blob64>> := [two];
    assert last[1..] == [];
    assert PrintSignatures(last) == PrintAll(PrintBlob64, two) + [] == PrintAll(PrintBlob64, two);
    NoneBefore(last);
    NoneBefore([none] + last);
    NoneBefore([none] + ([none] + last));
    assert TRANSACTION.signatures == [none] + ([none] + ([none] + last));
  }

  lemma NoneBefore(rings: seq<seq<Blob64>>)
    ensures var none: seq<Blob64> := []; PrintSignatures([none] + rings) == PrintSignatures(rings)
  {
    var none: seq<Blob64> := [];
    assert ([none] + rings)[1..] == rings;
    assert PrintAll(PrintBlob64, none) + PrintSignatures(rings) == PrintSignatures(rings);
  }

  lemma HeaderBytes()
    ensures PrintHeader(HEADER) == HEADER_BYTES
  {
    hide Varint.Encode, PrintUint;
    Numbers();
    SmallNumber(1); SmallNumber(0);
    var k := Fill(32, 8) + [0x0d, 0x0c, 0x0b, 0x0a];
    assert [1] + ([0] + ([0xac, 0x02] + k)) == [1, 0, 0xac, 0x02] + k;
  }

  /** The bytes of the block. It can be saved, so loading them gives it back. */
  lemma BlockBytes()
    ensures Savable(TRANSACTION)
    ensures var prefix := [1] + ([60] + (INPUT_BYTES + (OUTPUT_BYTES + [2, 12, 13])));
            PrintBlock(BLOCK) == HEADER_BYTES + ((prefix + (Fill(64, 14) + Fill(64, 15))) + ([1] + Fill(32, 9)))
  {
    hide PrintHeader, PrintPrefix, PrintSignatures, Varint.Encode, PrintAll;
    HeaderBytes();
    PrefixBytes();
    SignatureBytes();
    VecOf<Blob32>(PrintBlob32, BLOCK.txHashes);
    All1<Blob32>(PrintBlob32, Fill(32, 9));
  }

  // ----- Base58

  const LETTERS: seq<nat> := [42, 47, 30, 11, 32, 37, 36, 15, 38, 28, 23]

  /** The digits of 2^64 - 1 to the base 58. */
  lemma DigitsOfGreatest()
    ensures Positional.FromDigits(58, LETTERS) == 0xffff_ffff_ffff_ffff
  {
    var ds: seq<nat> := [];
    ds := Shift58(ds, 0, 42);
    ds := Shift58(ds, 42, 47);
    ds := Shift58(ds, 2483, 30);
    ds := Shift58(ds, 144044, 11);
    ds := Shift58(ds, 8354563, 32);
    ds := Shift58(ds, 484564686, 37);
    ds := Shift58(ds, 28104751825, 36);
    ds := Shift58(ds, 1630075605886, 15);
    ds := Shift58(ds, 94544385141403, 38);
    ds := Shift58(ds, 5483574338201412, 28);
    ds := Shift58(ds, 318047311615681924, 23);
    assert ds == LETTERS;
  }

  lemma Shift58(ds: seq<nat>, v: nat, d: nat) returns (more: seq<nat>)
    requires Positional.FromDigits(58, ds) == v
    ensures more == ds + [d] && Positional.FromDigits(58, more) == 58 * v + d
  {
    more := ds + [d];
    assert more[..|ds|] == ds;
  }

  lemma {:induction false} NumberOfGreatest(n: nat)
    ensures Positional.FromDigits(256, seq(n, _ => 0xff)) + 1 == Positional.Pow(256, n)
  {
    if n > 0 {
      var ds := seq(n, _ => 0xff);
      assert ds[..n - 1] == seq(n - 1, _ => 0xff);
      NumberOfGreatest(n - 1);
    }
  }

  lemma PowerOf256()
    ensures Positional.Pow(256, 8) == 0x1_0000_0000_0000_0000
  {
    assert Positional.Pow(256, 4) == 0x1_0000_0000;
  }

  /** The block of eight bytes 0xff, the greatest there is, and its letters. */
  lemma GreatestBlock()
    ensures Base58.Encode(seq(8, _ => 0xff)) == "jpXCZedGfVQ"
  {
    var block: seq<Byte> := seq(8, _ => 0xff);
    NumberOfGreatest(8);
    PowerOf256();
    DigitsOfGreatest();
    Positional.ToDigitsInvertsFromDigits(58, LETTERS);
    BlockOfLetters(block);
    OneBlock(block);
  }

  lemma OneBlock(block: seq<Byte>)
    requires |block| == 8
    ensures Base58.Encode(block) == Base58.EncodeBlock(block)
  {
    hide Base58.EncodeBlock;
    assert block[..8] == block && block[8..] == [];
    assert Base58.EncodeBlock(block) + "" == Base58.EncodeBlock(block);
  }

  lemma BlockOfLetters(block: seq<Byte>)
    requires |block| == 8 && Positional.ToDigits(58, Base58.Number(block), 11) == LETTERS
    ensures Base58.EncodeBlock(block) == "jpXCZedGfVQ"
  {
    hide Positional.ToDigits, Base58.Number;
    var s := Base58.EncodeBlock(block);
    assert s == Base58.Text(LETTERS);
    forall i | 0 <= i < 11 ensures s[i] == "jpXCZedGfVQ"[i] {
      Base58.AlphabetAt(LETTERS[i]);
    }
  }

  // ----- what is refused

  /** A tag that no input has, a count of elements that are not there, signatures that do not fit the inputs. */
  lemma Refused(tag: Byte, rest: seq<Byte>)
    ensures tag !in {0x00, 0x01, 0x02, 0xff} ==> ParseTxIn([tag] + rest) == None
    ensures tag !in {0x00, 0x01, 0x02} ==> ParseTarget([tag] + rest) == None
    ensures |rest| < 127 ==> ParseVec(ParseByte, [127] + rest) == None
    ensures !Savable(TRANSACTION.(signatures := [[], [], [], [Fill(64, 14)]]))
            && !Savable(TRANSACTION.(signatures := []))
  {
    assert ([tag] + rest)[1..] == rest;
    assert ([127] + rest)[1..] == rest;
    hide Fill;
    var one := TRANSACTION.(signatures := [[], [], [], [Fill(64, 14)]]);
    assert |one.signatures[3]| == 1 && SignatureSize(one.prefix.vin[3]) == 2;
    var none := TRANSACTION.(signatures := []);
    assert SignatureSize(none.prefix.vin[3]) == 2;
  }
}
