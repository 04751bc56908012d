/** The in-place transformations and the key expansion of CryptoNight/oaes_lib.c. */
module Oaes {
  import opened OaesTables
  import opened OaesBlock

  // ----- transformations in place

  /** `s` with `src` written over it from `at` on. */
  function Splice(s: seq<bv8>, at: nat, src: seq<bv8>): (r: seq<bv8>)
    requires at + |src| <= |s|
    ensures |r| == |s|
  {
    s[..at] + src + s[at + |src|..]
  }

  method SubBytesInPlace(c: array<bv8>)
    requires c.Length == 16
    modifies c
    ensures c[..] == SubBytes(old(c[..]))
  {
    hide SubByte;
    for j := 0 to 16
      invariant forall k :: 0 <= k < 16 ==> c[k] == if k < j then SubByte(old(c[k])) else old(c[k])
    {
      c[j] := SubByte(c[j]);
    }
  }

  method InvSubBytesInPlace(c: array<bv8>)
    requires c.Length == 16
    modifies c
    ensures c[..] == InvSubBytes(old(c[..]))
  {
    hide InvSubByte;
    for j := 0 to 16
      invariant forall k :: 0 <= k < 16 ==> c[k] == if k < j then InvSubByte(old(c[k])) else old(c[k])
    {
      c[j] := InvSubByte(c[j]);
    }
  }

  /** memcpy into the front of a block. */
  method CopyInto(dst: array<bv8>, at: nat, src: seq<bv8>)
    requires at + |src| <= dst.Length
    modifies dst
    ensures dst[..] == Splice(old(dst[..]), at, src)
  {
    for i := 0 to |src|
      invariant forall k :: 0 <= k < dst.Length ==> dst[k] == if at <= k < at + i then src[k - at] else old(dst[k])
    {
      dst[at + i] := src[i];
    }
  }

  method ShiftRowsInPlace(block: array<bv8>)
    requires block.Length == 16
    modifies block
    ensures block[..] == ShiftRows(old(block[..]))
  {
    var temp := [block[0x00], block[0x05], block[0x0a], block[0x0f], block[0x04], block[0x09], block[0x0e], block[0x03],
                 block[0x08], block[0x0d], block[0x02], block[0x07],
                 block[0x0c], block[0x01], block[0x06], block[0x0b]];
    ghost var s: Block := block[..];
    assert forall i :: 0 <= i < 16 ==> temp[i] == ShiftRows(s)[i];
    CopyInto(block, 0, temp);
  }

  method InvShiftRowsInPlace(block: array<bv8>)
    requires block.Length == 16
    modifies block
    ensures block[..] == InvShiftRows(old(block[..]))
  {
    var temp := [block[0x00], block[0x0d], block[0x0a], block[0x07], block[0x04], block[0x01], block[0x0e], block[0x0b],
                 block[0x08], block[0x05], block[0x02], block[0x0f],
                 block[0x0c], block[0x09], block[0x06], block[0x03]];
    ghost var s: Block := block[..];
    assert forall i :: 0 <= i < 16 ==> temp[i] == InvShiftRows(s)[i];
    CopyInto(block, 0, temp);
  }

  /** oaes_mix_cols on the word at `at`. */
  method MixCols(c: array<bv8>, at: nat)
    requires at + 4 <= c.Length
    modifies c
    ensures c[..] == Splice(old(c[..]), at, MixWord(old(c[at..at + 4])))
  {
    hide GfMul;
    var word := c[at..at + 4];
    var temp := [
      GfMul(word[0], 0x02) ^ GfMul(word[1], 0x03) ^ word[2] ^ word[3],
      word[0] ^ GfMul(word[1], 0x02) ^ GfMul(word[2], 0x03) ^ word[3],
      word[0] ^ word[1] ^ GfMul(word[2], 0x02) ^ GfMul(word[3], 0x03),
      GfMul(word[0], 0x03) ^ word[1] ^ word[2] ^ GfMul(word[3], 0x02)];
    assert temp == MixWord(word);
    CopyInto(c, at, temp);
  }

  method InvMixCols(c: array<bv8>, at: nat)
    requires at + 4 <= c.Length
    modifies c
    ensures c[..] == Splice(old(c[..]), at, InvMixWord(old(c[at..at + 4])))
  {
    hide GfMul;
    var word := c[at..at + 4];
    var temp := [
      GfMul(word[0], 0x0e) ^ GfMul(word[1], 0x0b) ^ GfMul(word[2], 0x0d) ^ GfMul(word[3], 0x09),
      GfMul(word[0], 0x09) ^ GfMul(word[1], 0x0e) ^ GfMul(word[2], 0x0b) ^ GfMul(word[3], 0x0d),
      GfMul(word[0], 0x0d) ^ GfMul(word[1], 0x09) ^ GfMul(word[2], 0x0e) ^ GfMul(word[3], 0x0b),
      GfMul(word[0], 0x0b) ^ GfMul(word[1], 0x0d) ^ GfMul(word[2], 0x09) ^ GfMul(word[3], 0x0e)];
    assert temp == InvMixWord(word);
    CopyInto(c, at, temp);
  }

  lemma SpliceColumns(s: Block, a: Word, b: Word, c: Word, d: Word)
    ensures var s1 := Splice(s, 0, a);
            var s2 := Splice(s1, 4, b);
            var s3 := Splice(s2, 8, c);
            && s[0..4] == Column(s, 0) && s1[4..8] == Column(s, 1)
            && s2[8..12] == Column(s, 2) && s3[12..16] == Column(s, 3)
            && Splice(s3, 12, d) == Join(a, b, c, d)
  {
    var s1 := Splice(s, 0, a);
    var s2 := Splice(s1, 4, b);
    var s3 := Splice(s2, 8, c);
    assert s1 == a + s[4..];
    assert s2 == a + b + s[8..];
    assert s3 == a + b + c + s[12..];
  }

  method MixColumnsInPlace(c: array<bv8>)
    requires c.Length == 16
    modifies c
    ensures c[..] == MixColumns(old(c[..]))
  {
    hide MixWord, Splice, Join;
    ghost var s: Block := c[..];
    ghost var p, q, r, t := MixWord(Column(s, 0)), MixWord(Column(s, 1)), MixWord(Column(s, 2)), MixWord(Column(s, 3));
    SpliceColumns(s, p, q, r, t);
    MixCols(c, 0);
    assert c[4..8] == c[..][4..8];
    MixCols(c, 4);
    assert c[8..12] == c[..][8..12];
    MixCols(c, 8);
    assert c[12..16] == c[..][12..16];
    MixCols(c, 12);
  }

  method InvMixColumnsInPlace(c: array<bv8>)
    requires c.Length == 16
    modifies c
    ensures c[..] == InvMixColumns(old(c[..]))
  {
    hide InvMixWord, Splice, Join;
    ghost var s: Block := c[..];
    ghost var p, q := InvMixWord(Column(s, 0)), InvMixWord(Column(s, 1));
    ghost var r, t := InvMixWord(Column(s, 2)), InvMixWord(Column(s, 3));
    SpliceColumns(s, p, q, r, t);
    InvMixCols(c, 0);
    assert c[4..8] == c[..][4..8];
    InvMixCols(c, 4);
    assert c[8..12] == c[..][8..12];
    InvMixCols(c, 8);
    assert c[12..16] == c[..][12..16];
    InvMixCols(c, 12);
  }

  // ----- keys

  class OaesKey {
    var data: seq<bv8>
    var expData: array<bv8>
    var numKeys: nat
    var keyBase: nat

    ghost predicate Valid()
      reads this, expData
    {
      && KeySize(|data|) && numKeys == NumKeys(data)
      && expData[..] == ExpandedKey(data)
    }

    /** oaes_key_expand: every index into the schedule and into the table of round constants is in bounds. */
    constructor (data: seq<bv8>)
      requires KeySize(|data|)
      ensures Valid() && this.data == data && fresh(expData)
    {
      this.data := data;
      keyBase := |data| / 4;
      numKeys := |data| / 4 + 7;
      expData := new bv8[(|data| / 4 + 7) * 16](_ => 0);
      new;
      hide Schedule, ExpandedKey;
      StartExpansion();
      ExpandWords();
    }

    ghost predicate Sized()
      reads this
    {
      KeySize(|data|) && keyBase == |data| / 4 && numKeys == keyBase + 7 && expData.Length == 16 * numKeys
    }

    /** The key itself is the first words. */
    method StartExpansion()
      requires Sized()
      modifies expData
      ensures expData[..4 * keyBase] == Schedule(data, keyBase)
    {
      hide Schedule, Splice;
      ghost var blank := expData[..];
      CopyInto(expData, 0, data);
      ScheduleStarts(data, keyBase);
      SplicePrefix(blank, 0, data);
      assert expData[..4 * keyBase] == expData[..][..4 * keyBase] == data;
    }

    method ExpandWords()
      requires Sized() && expData[..4 * keyBase] == Schedule(data, keyBase)
      modifies expData
      ensures expData[..] == ExpandedKey(data)
    {
      hide Schedule;
      var i := keyBase;
      while i < numKeys * 4
        invariant keyBase <= i <= numKeys * 4
        invariant expData[..4 * i] == Schedule(data, i)
      {
        ExpandWord(i);
        i := i + 1;
      }
      assert expData[..] == expData[..4 * i];
    }

    /** One turn of the loop: word i from words i-1 and i-keyBase. */
    method ExpandWord(i: nat)
      requires Sized() && keyBase <= i < numKeys * 4
      requires expData[..4 * i] == Schedule(data, i)
      modifies expData
      ensures expData[..4 * i + 4] == Schedule(data, i + 1)
    {
      hide KeyWord, Schedule, Splice, Transformed, Turn, Place;
      ScheduleAt(data, i, i - 1);
      ScheduleAt(data, i, i - keyBase);
      ghost var done := expData[..4 * i];
      TurnInTable(keyBase, i);
      var before := expData[4 * (i - 1)..4 * (i - 1) + 4];
      PrefixSlice(expData[..], 4 * i, 4 * (i - 1));
      var temp := TransformWord(before, i);
      var from := expData[4 * (i - keyBase)..4 * (i - keyBase) + 4];
      PrefixSlice(expData[..], 4 * i, 4 * (i - keyBase));
      var word := XorWord(from, temp);
      NextWord(data, i, from, before, word);
      SplicePrefix(expData[..], 4 * i, word);
      assert done == expData[..][..4 * i];
      CopyInto(expData, 4 * i, word);
      assert expData[..4 * i + 4] == expData[..][..4 * i + 4];
    }

    method TransformWord(before: Word, i: nat) returns (temp: Word)
      requires 4 <= keyBase <= 8 && i >= keyBase && Turn(keyBase, i) <= 10
      ensures temp == Transformed(keyBase, i, before)
    {
      hide SubWord, RotWord, Rcon, RconLookup, Turn, Place, XorWord;
      temp := before;
      if Place(keyBase, i) == 0 {
        temp := RotWord(temp);
        temp := SubWord(temp);
        RconTable(Turn(keyBase, i));
        XorFirst(temp, RconLookup(Turn(keyBase, i)));
        temp := temp[0 := temp[0] ^ RconLookup(Turn(keyBase, i))];
      } else if keyBase > 6 && Place(keyBase, i) == 4 {
        temp := SubWord(temp);
      }
    }
  }

  /** The table of round constants has ten entries, and ten are the most a key size needs. */
  lemma TurnInTable(nk: nat, i: nat)
    requires (nk == 4 || nk == 6 || nk == 8) && nk <= i < 4 * (nk + 7)
    ensures Turn(nk, i) <= 10
  {
    if nk == 4 {} else if nk == 6 {} else {}
  }

  lemma PrefixSlice(s: seq<bv8>, n: nat, at: nat)
    requires at + 4 <= n <= |s|
    ensures s[..n][at..at + 4] == s[at..at + 4]
  {}

  lemma SplicePrefix(s: seq<bv8>, at: nat, src: seq<bv8>)
    requires at + |src| <= |s|
    ensures Splice(s, at, src)[..at + |src|] == s[..at] + src
  {}

  lemma NextWord(key: seq<bv8>, i: nat, from: Word, before: Word, word: seq<bv8>)
    requires KeySize(|key|) && |key| / 4 <= i
    requires from == KeyWord(key, i - |key| / 4) && before == KeyWord(key, i - 1)
    requires word == XorWord(from, Transformed(|key| / 4, i, before))
    ensures Schedule(key, i + 1) == Schedule(key, i) + word
  {}
}
