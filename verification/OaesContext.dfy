/** The context of CryptoNight/oaes_lib.c and its operations on buffers: blocks encrypted and decrypted in
    place, whole messages behind a header and an initialisation vector. */
module OaesContext {
  import opened OaesBlock
  import opened Oaes
  import opened OaesModes

  datatype Ret = SUCCESS | ARG2 | ARG3 | BUF | NOKEY | HEADER

  /** The AddRoundKey and CBC loops: c[j] = c[j] ^ k[at + j]. */
  method XorInPlace(c: array<bv8>, k: array<bv8>, at: nat)
    requires c.Length == 16 && at + 16 <= k.Length && c != k
    modifies c
    ensures c[..] == AddRoundKey(old(c[..]), k[at..at + 16])
  {
    for j := 0 to 16
      invariant forall i :: 0 <= i < 16 ==> c[i] == if i < j then old(c[i]) ^ k[at + i] else old(c[i])
    {
      c[j] := c[j] ^ k[at + j];
    }
  }

  /** The plain block that the cipher block at `i` of a sealed message stands for. */
  function PlainBlock(c: seq<bv8>, i: nat, cbc: bool, w: seq<bv8>, n: nat): Block
    requires 32 + i + 16 <= |c| && Keys(w, n)
  {
    Masked(cbc, InvCipher(c[32 + i..32 + i + 16], w, n), c[16 + i..32 + i])
  }

  /** The untyped value of oaes_set_option: a vector for CBC, a function for stepping. */
  datatype OptionValue = Null | Vector(bytes: Block) | Callback

  /** `stepCb` says whether a step function is set. Step functions get the state to look at. */
  class OaesCtx {
    var stepCb: bool
    var key: OaesKey?
    var options: bv16
    const iv: array<bv8>

    ghost predicate Valid()
      reads this, iv, key, if key == null then {} else {key.expData}
    {
      && iv.Length == 16 && ContextOptions(options) && (stepCb <==> StepBits(options) == OPTION_STEP_ON)
      && (key != null ==> key.Valid() && key.expData != iv)
    }

    /** No buffer of the caller's is one of the context's own. */
    ghost predicate Apart(c: array<bv8>)
      reads this, key
    {
      c != iv && (key != null ==> c != key.expData)
    }

    ghost function RoundKeys(): seq<bv8>
      requires key != null
      reads this, key, key.expData
    {
      key.expData[..]
    }

    /** oaes_alloc: CBC with a random initialisation vector, no stepping, no key. */
    constructor (random: Block)
      ensures Valid() && key == null && !stepCb && iv[..] == random && fresh(iv)
      ensures ModeBits(options) == OPTION_CBC && StepBits(options) == OPTION_STEP_OFF
    {
      key := null;
      stepCb := false;
      options := 0 | OPTION_CBC | OPTION_STEP_OFF;
      iv := new bv8[16](i requires 0 <= i < 16 => random[i]);
    }

    /** oaes_set_option. Setting the mode keeps the stepping and the other way round; a missing initialisation vector is
        filled with random bytes; stepping on without a function is stepping off, with an error. */
    method SetOption(option: bv16, value: OptionValue, random: Block) returns (rc: Ret)
      requires Valid() && (option == OPTION_CBC ==> !value.Callback?) && (option == OPTION_STEP_ON ==> !value.Vector?)
      modifies this`stepCb, this`options, iv
      ensures Valid()
      ensures rc == if option != OPTION_ECB && option != OPTION_CBC
                       && option != OPTION_STEP_ON && option != OPTION_STEP_OFF then ARG2
                    else if option == OPTION_STEP_ON && value.Null? then ARG3 else SUCCESS
      ensures ModeBits(options)
           == if option == OPTION_ECB || option == OPTION_CBC then option else ModeBits(old(options))
      ensures StepBits(options) == if option == OPTION_STEP_ON && value.Null? then OPTION_STEP_OFF
                                   else if option == OPTION_STEP_ON || option == OPTION_STEP_OFF then option
                                   else StepBits(old(options))
      ensures iv[..] == if option == OPTION_ECB then seq(16, _ => 0)
                        else if option == OPTION_CBC then (if value.Vector? then value.bytes else random)
                        else old(iv[..])
    {
      hide ContextOptions, ModeBits, StepBits;
      OptionSwitch(options);
      if option == OPTION_ECB {
        options := options & !OPTION_CBC;
        FillVector(seq(16, _ => 0));
      } else if option == OPTION_CBC {
        options := options & !OPTION_ECB;
        FillVector(if value.Vector? then value.bytes else random);
      } else if option == OPTION_STEP_ON {
        if value.Callback? {
          options := options & !OPTION_STEP_OFF;
          stepCb := true;
        } else {
          options := options & !OPTION_STEP_ON;
          options := options | OPTION_STEP_OFF;
          stepCb := false;
          return ARG3;
        }
      } else if option == OPTION_STEP_OFF {
        options := options & !OPTION_STEP_ON;
        stepCb := false;
      } else {
        return ARG2;
      }
      options := options | option;
      rc := SUCCESS;
    }

    method FillVector(bytes: Block)
      requires iv.Length == 16
      modifies iv
      ensures iv[..] == bytes
    {
      CopyInto(iv, 0, bytes);
      SpliceAll(old(iv[..]), bytes);
    }

    /** oaes_key_import_data */
    method KeyImportData(data: seq<bv8>) returns (rc: Ret)
      requires Valid()
      modifies this`key
      ensures Valid()
      ensures rc == if KeySize(|data|) then SUCCESS else ARG3
      ensures rc == SUCCESS ==>
                key != null && fresh(key) && fresh(key.expData) && key.data == data && RoundKeys() == ExpandedKey(data)
      ensures rc != SUCCESS ==> key == old(key)
    {
      if |data| != 16 && |data| != 24 && |data| != 32 {
        return ARG3;
      }
      key := new OaesKey(data);
      rc := SUCCESS;
    }

    /** oaes_encrypt_block: the cipher of section 5.1 of FIPS 197 in place. */
    method EncryptBlock(c: array<bv8>) returns (rc: Ret)
      requires Valid() && Apart(c)
      modifies c
      ensures rc == if c.Length != 16 then ARG3 else if key == null then NOKEY else SUCCESS
      ensures rc == SUCCESS ==> c[..] == Cipher(old(c[..]), RoundKeys(), key.numKeys)
      ensures rc != SUCCESS ==> c[..] == old(c[..])
    {
      hide SubBytes, ShiftRows, MixColumns, AddRoundKey, ExpandedKey;
      if c.Length != 16 {
        return ARG3;
      }
      if key == null {
        return NOKEY;
      }
      ghost var s: Block, w := c[..], RoundKeys();
      XorInPlace(c, key.expData, 0);
      assert w[0..16] == key.expData[0..16];
      for i := 1 to key.numKeys - 1
        invariant c[..] == Forward(s, w, i - 1)
        invariant RoundKeys() == w
      {
        SubBytesInPlace(c);
        ShiftRowsInPlace(c);
        MixColumnsInPlace(c);
        XorInPlace(c, key.expData, 16 * i);
        assert w[16 * i..16 * i + 16] == key.expData[16 * i..16 * i + 16];
      }
      SubBytesInPlace(c);
      ShiftRowsInPlace(c);
      var last := 16 * (key.numKeys - 1);
      XorInPlace(c, key.expData, last);
      assert w[last..last + 16] == key.expData[last..last + 16];
      rc := SUCCESS;
    }

    /** oaes_decrypt_block: the inverse cipher of section 5.3 of FIPS 197 in place. */
    method DecryptBlock(c: array<bv8>) returns (rc: Ret)
      requires Valid() && Apart(c)
      modifies c
      ensures rc == if c.Length != 16 then ARG3 else if key == null then NOKEY else SUCCESS
      ensures rc == SUCCESS ==> c[..] == InvCipher(old(c[..]), RoundKeys(), key.numKeys)
      ensures rc != SUCCESS ==> c[..] == old(c[..])
    {
      hide InvSubBytes, InvShiftRows, InvMixColumns, AddRoundKey, ExpandedKey;
      if c.Length != 16 {
        return ARG3;
      }
      if key == null {
        return NOKEY;
      }
      ghost var s: Block, w := c[..], RoundKeys();
      var last := 16 * (key.numKeys - 1);
      XorInPlace(c, key.expData, last);
      assert w[last..last + 16] == key.expData[last..last + 16];
      var i := key.numKeys - 2;
      while i > 0
        invariant 0 <= i <= key.numKeys - 2
        invariant c[..] == Backward(s, w, key.numKeys, i + 1)
        invariant RoundKeys() == w
      {
        InvShiftRowsInPlace(c);
        InvSubBytesInPlace(c);
        XorInPlace(c, key.expData, 16 * i);
        assert w[16 * i..16 * i + 16] == key.expData[16 * i..16 * i + 16];
        InvMixColumnsInPlace(c);
        i := i - 1;
      }
      InvShiftRowsInPlace(c);
      InvSubBytesInPlace(c);
      XorInPlace(c, key.expData, 0);
      assert w[0..16] == key.expData[0..16];
      rc := SUCCESS;
    }

    /** The block of the message at `i`, with the padding put after its last bytes. */
    method PaddedBlock(c: array<bv8>, ghost m: seq<bv8>, i: nat, left: nat) returns (block: array<bv8>)
      requires i < |m| && left == |m| - i && 32 + |m| <= c.Length
      requires c[32 + i..32 + |m|] == m[i..]
      requires i % 16 == 0
      ensures fresh(block) && block.Length == 16
      ensures i + 16 <= |Padded(m)| && block[..] == Padded(m)[i..i + 16]
    {
      block := new bv8[16](_ => 0);
      var size := if left < 16 then left else 16;
      ghost var data := Padded(m);
      assert c[32 + i..32 + |m|] == c[..][32 + i..32 + |m|];
      for j := 0 to size
        invariant forall k :: 0 <= k < j ==> block[k] == data[i + k]
      {
        PlainAt(c[..], m, i, j);
        block[j] := c[32 + i + j];
      }
      for j := 0 to 16 - size
        invariant forall k :: 0 <= k < size + j ==> block[k] == data[i + k]
      {
        block[size + j] := (j + 1) as bv8;
      }
    }

    /** One turn of the loop of oaes_encrypt. */
    method SealBlock(c: array<bv8>, ghost m: seq<bv8>, i: nat, left: nat)
      requires Valid() && Apart(c) && key != null
      requires i < |m| && left == |m| - i && i % 16 == 0 && 32 + |Padded(m)| <= c.Length
      requires c[32 + i..32 + |m|] == m[i..]
      modifies c, iv
      ensures i + 16 <= |Padded(m)|
      ensures var cbc := Chains(options);
              var out := EncryptOne(RoundKeys(), key.numKeys, cbc, Padded(m)[i..i + 16], old(iv[..]));
              c[..] == Splice(old(c[..]), 32 + i, out) && iv[..] == if cbc then out else old(iv[..])
    {
      hide ExpandedKey, Cipher, PadBytes, AddRoundKey, Chains, ContextOptions;
      var block := PaddedBlock(c, m, i, left);
      var cbc := Chains(options);
      if cbc {
        XorInPlace(block, iv, 0);
        assert iv[0..16] == iv[..];
      }
      var rc := EncryptBlock(block);
      CopyInto(c, 32 + i, block[..]);
      if cbc {
        CopyInto(iv, 0, block[..]);
        assert iv[..] == block[..];
      }
    }

    /** Header, initialisation vector and plain message. */
    method PutHeader(header: Block, m: seq<bv8>, c: array<bv8>)
      requires Valid() && Apart(c) && 32 + |Padded(m)| <= c.Length
      modifies c
      ensures Filled(c[..], header + iv[..], [], m, old(c[..]))
    {
      hide Splice, Padded, Filled;
      Layout(c[..], header, iv[..], m);
      CopyInto(c, 0, header);
      CopyInto(c, 16, iv[..]);
      CopyInto(c, 32, m);
    }

    /** oaes_encrypt. `capacity` is what *c_len holds at the call, `cLen` what it holds afterwards. */
    method Encrypt(m: seq<bv8>, c: array?<bv8>, capacity: nat) returns (rc: Ret, cLen: nat)
      requires Valid() && (c != null ==> Apart(c) && capacity <= c.Length)
      modifies c, iv
      ensures cLen == 32 + |Padded(m)|
      ensures rc == if c == null then SUCCESS
                    else if capacity < cLen then BUF else if key == null then NOKEY else SUCCESS
      ensures c == null || rc != SUCCESS ==> iv[..] == old(iv[..]) && (c != null ==> c[..] == old(c[..]))
      ensures c != null && rc == SUCCESS ==>
                && c[..cLen] == Seal(RoundKeys(), key.numKeys, options, old(iv[..]), m)
                && c[cLen..] == old(c[cLen..])
                && iv[..] == ChainedIv(RoundKeys(), key.numKeys, options, old(iv[..]), m)
    {
      hide ExpandedKey, EncryptOne, EncryptBlocks, Splice, PadBytes, MakeHeader, Before, Filled, BlockAt;
      var padLen := if |m| % 16 == 0 then 0 else 16 - |m| % 16;
      cLen := 32 + |m| + padLen;
      if c == null {
        return SUCCESS, cLen;
      }
      if capacity < cLen {
        return BUF, cLen;
      }
      if key == null {
        return NOKEY, cLen;
      }
      var header := MakeHeader(options, if padLen != 0 then FLAG_PAD else 0);
      ghost var iv0: Block, was := iv[..], c[..];
      PutHeader(header, m, c);
      SealBlocks(m, c, |m| + padLen, header + iv0, was);
      Finished(c[..], RoundKeys(), key.numKeys, options, iv0, m, was);
      rc := SUCCESS;
    }

    /** The loop of oaes_encrypt. */
    method SealBlocks(m: seq<bv8>, c: array<bv8>, total: nat, ghost head: seq<bv8>, ghost was: seq<bv8>)
      requires Valid() && Apart(c) && key != null
      requires total == |Padded(m)| && Filled(c[..], head, [], m, was)
      modifies c, iv
      ensures var out := EncryptBlocks(RoundKeys(), key.numKeys, Chains(options), old(iv[..]), Padded(m), total / 16);
              && Filled(c[..], head, out, m, was)
              && iv[..] == if Chains(options) then Before(old(iv[..]), out) else old(iv[..])
    {
      hide ExpandedKey, EncryptOne, EncryptBlocks, Splice, PadBytes, Before, Filled, BlockAt, Padded;
      ghost var iv0: Block, w, n, cbc, data := iv[..], RoundKeys(), key.numKeys, Chains(options), Padded(m);
      NothingYet(w, n, cbc, iv0, data);
      var i := 0;
      ghost var j := 0;
      while i < total
        invariant i == 16 * j <= total
        invariant Filled(c[..], head, EncryptBlocks(w, n, cbc, iv0, data, j), m, was)
        invariant iv[..] == if cbc then Before(iv0, EncryptBlocks(w, n, cbc, iv0, data, j)) else iv0
        invariant RoundKeys() == w && Valid()
      {
        ghost var before, prev: Block, out := c[..], iv[..], EncryptBlocks(w, n, cbc, iv0, data, j);
        ghost var block := EncryptOne(w, n, cbc, BlockAt(data, j), prev);
        PadsOnlyTheLast(m, i);
        PlainRest(before, head, out, m, was);
        assert c[32 + i..32 + |m|] == before[32 + i..32 + |m|];
        SealBlock(c, m, i, |m| - i);
        NextBlock(w, n, cbc, iv0, data, j, prev);
        FilledStep(before, head, out, m, was, block);
        i := i + 16;
        j := j + 1;
      }
    }

    /** One turn of the loop of oaes_decrypt; `iv` is the function's own copy. */
    method OpenBlock(c: seq<bv8>, m: array<bv8>, i: nat, cbc: bool, iv: array<bv8>)
      requires Valid() && Apart(m) && key != null
      requires 32 + i + 16 <= |c| && i + 16 <= m.Length
      requires iv.Length == 16 && Apart(iv) && iv != m && (i == 0 ==> iv[..] == c[16..32])
      requires m[i..i + 16] == c[32 + i..32 + i + 16]
      modifies m, iv
      ensures m[..] == Splice(old(m[..]), i, PlainBlock(c, i, cbc, RoundKeys(), key.numKeys))
    {
      hide ExpandedKey, InvCipher, AddRoundKey, Splice;
      var block := new bv8[16](k requires 0 <= k < 16 && i + 16 <= m.Length reads m => m[i + k]);
      assert block[..] == m[i..i + 16];
      if cbc && i > 0 {
        CopyInto(iv, 0, c[16 + i..32 + i]);
        SpliceAll(old(iv[..]), c[16 + i..32 + i]);
      }
      var rc := DecryptBlock(block);
      if cbc {
        XorInPlace(block, iv, 0);
        assert iv[0..16] == iv[..];
      }
      CopyInto(m, i, block[..]);
    }

    method OpenBlocks(c: seq<bv8>, m: array<bv8>, cbc: bool, mLen: nat)
      requires Valid() && Apart(m) && key != null
      requires |c| % 16 == 0 && |c| == mLen + 32 && mLen <= m.Length
      modifies m
      ensures m[..mLen] == DecryptBlocks(RoundKeys(), key.numKeys, cbc, c[16..], mLen / 16)
      ensures m[mLen..] == old(m[mLen..])
    {
      hide ExpandedKey, InvCipher, AddRoundKey, DecryptBlocks, Splice, PlainBlock, BlockAt, Opening;
      ghost var w, n, was := RoundKeys(), key.numKeys, m[..];
      var iv := new bv8[16](k requires 0 <= k < 16 => c[16 + k]);
      assert iv[..] == c[16..32];
      CopyInto(m, 0, c[32..]);
      OpeningStarts(was, c, w, n, cbc);
      var i := 0;
      ghost var j := 0;
      while i < mLen
        invariant i == 16 * j <= mLen
        invariant Opening(m[..], DecryptBlocks(w, n, cbc, c[16..], j), c, was)
        invariant i == 0 ==> iv[..] == c[16..32]
        invariant RoundKeys() == w
      {
        ghost var before, plain := m[..], DecryptBlocks(w, n, cbc, c[16..], j);
        OpeningRest(before, plain, c, was);
        assert m[i..i + 16] == before[i..i + 16];
        OpenBlock(c, m, i, cbc, iv);
        NextPlain(w, n, cbc, c, j);
        OpeningStep(before, plain, c, was, PlainBlock(c, i, cbc, w, n));
        i := i + 16;
        j := j + 1;
      }
      OpeningEnds(m[..], DecryptBlocks(w, n, cbc, c[16..], j), c, was);
      assert m[..mLen] == m[..][..mLen] && m[mLen..] == m[..][mLen..];
    }

    /** oaes_decrypt. `capacity` is what *m_len holds at the call; both lengths are a size_t. */
    method Decrypt(c: seq<bv8>, m: array?<bv8>, capacity: nat) returns (rc: Ret, mLen: nat)
      requires Valid() && (m != null ==> Apart(m) && capacity <= m.Length)
      requires |c| < TWO_64 && capacity < TWO_64 - 32
      requires |c| == 32 ==> c[8] != FLAG_PAD
      modifies m
      ensures |c| % 16 != 0 ==> rc == ARG3 && mLen == capacity
      ensures |c| % 16 == 0 && m == null ==> rc == SUCCESS && mLen == (|c| - 32) % TWO_64
      ensures |c| % 16 == 0 && m != null && |c| < 32 ==> rc == BUF
      ensures |c| % 16 == 0 && m != null && |c| >= 32 ==>
                rc == if capacity < |c| - 32 then BUF
                      else if key == null then NOKEY
                      else if Open(RoundKeys(), key.numKeys, c) == Refused then HEADER
                      else SUCCESS
      ensures rc != SUCCESS && m != null && (rc != HEADER || !HeaderOk(c)) ==> m[..] == old(m[..])
      ensures rc == SUCCESS && m != null ==>
                && 32 + mLen <= |c| <= 32 + m.Length
                && Open(RoundKeys(), key.numKeys, c) == Message(m[..mLen])
                && (forall k :: mLen <= k < |c| - 32 ==> m[k] == 0)
                && m[|c| - 32..] == old(m[|c| - 32..])
    {
      hide ExpandedKey, DecryptBlocks, Unpad, HeaderOk, Chains, JoinBytes, ContextOptions;
      if |c| % 16 != 0 {
        return ARG3, capacity;
      }
      mLen := (|c| - 32) % TWO_64;
      if m == null {
        return SUCCESS, mLen;
      }
      if capacity < mLen {
        return BUF, mLen;
      }
      if key == null {
        return NOKEY, mLen;
      }
      var ok := CheckHeader(c);
      if !ok {
        return HEADER, mLen;
      }
      OpenBlocks(c, m, Chains(JoinBytes(c[6], c[7])), mLen);
      FlagMasks(c[8]);
      if c[8] & FLAG_PAD != 0 {
        ghost var plain := m[..mLen];
        rc, mLen := RemovePad(m, mLen);
        assert Open(RoundKeys(), key.numKeys, c) == Unpad(plain);
      } else {
        rc := SUCCESS;
      }
    }
  }

  /** The tests that oaes_decrypt makes of a header. */
  method CheckHeader(c: seq<bv8>) returns (ok: bool)
    requires |c| >= 32
    ensures ok <==> HeaderOk(c)
    ensures ok ==> c[8] == 0 || c[8] == FLAG_PAD
  {
    if c[..4] != [0x4f, 0x41, 0x45, 0x53] || c[4] != 0x01 || c[5] != 0x02 {
      return false;
    }
    var options := JoinBytes(c[6], c[7]);
    if options & !(OPTION_ECB | OPTION_CBC | OPTION_STEP_ON | OPTION_STEP_OFF) != 0 {
      return false;
    }
    if options & OPTION_ECB != 0 && options & OPTION_CBC != 0 {
      return false;
    }
    if options == 0 {
      return false;
    }
    FlagMasks(c[8]);
    ok := c[8] & !FLAG_PAD == 0;
  }

  /** The end of oaes_decrypt: the padding is checked, then blanked. */
  method RemovePad(m: array<bv8>, mLen: nat) returns (rc: Ret, newLen: nat)
    requires 16 <= mLen <= m.Length
    modifies m
    ensures m[mLen..] == old(m[mLen..])
    ensures match Unpad(old(m[..mLen]))
            case Refused => rc == HEADER && newLen == mLen && m[..] == old(m[..])
            case Message(text) =>
              && rc == SUCCESS && newLen == |text| < mLen
              && m[..newLen] == text && (forall k :: newLen <= k < mLen ==> m[k] == 0)
  {
    hide Unpad, Value, TailCounts;
    ghost var plain := m[..mLen];
    UnpadBounds(plain);
    var temp := Value(m[mLen - 1]);
    if temp <= 0x00 || temp > 0x0f {
      return HEADER, mLen;
    }
    var isPad := CheckPad(m, mLen, temp);
    PadCountsDown(plain, temp, isPad);
    if isPad {
      Blank(m, mLen - temp, mLen);
      assert m[..mLen - temp] == plain[..mLen - temp];
      assert m[mLen..] == old(m[mLen..]);
      return SUCCESS, mLen - temp;
    }
    return HEADER, mLen;
  }

  /** The loop that sets _is_pad. */
  method CheckPad(m: array<bv8>, mLen: nat, temp: nat) returns (isPad: bool)
    requires temp <= mLen <= m.Length
    ensures isPad <==> TailCounts(m[..mLen], temp, temp)
  {
    hide Value, TailCounts;
    isPad := true;
    NothingCounted(m[..mLen], temp);
    for i := 0 to temp
      invariant isPad <==> TailCounts(m[..mLen], temp, i)
    {
      OneMoreCounted(m[..mLen], temp, i);
      if Value(m[mLen - 1 - i]) != temp - i {
        isPad := false;
      }
    }
  }

  /** memset to zero. */
  method Blank(m: array<bv8>, from: nat, to: nat)
    requires from <= to <= m.Length
    modifies m
    ensures m[..from] == old(m[..from]) && m[to..] == old(m[to..])
    ensures forall k :: from <= k < to ==> m[k] == 0
  {
    for i := from to to
      invariant m[..from] == old(m[..from]) && m[to..] == old(m[to..])
      invariant forall k :: from <= k < i ==> m[k] == 0
    {
      m[i] := 0;
    }
  }

  /** Each switch leaves one mode and one step bit, the other pair as it was. */
  lemma OptionSwitch(options: bv16)
    requires ContextOptions(options)
    ensures var o := (options & !OPTION_CBC) | OPTION_ECB;
            ContextOptions(o) && ModeBits(o) == OPTION_ECB && StepBits(o) == StepBits(options)
    ensures var o := (options & !OPTION_ECB) | OPTION_CBC;
            ContextOptions(o) && ModeBits(o) == OPTION_CBC && StepBits(o) == StepBits(options)
    ensures var o := (options & !OPTION_STEP_OFF) | OPTION_STEP_ON;
            ContextOptions(o) && StepBits(o) == OPTION_STEP_ON && ModeBits(o) == ModeBits(options)
    ensures var o := (options & !OPTION_STEP_ON) | OPTION_STEP_OFF;
            ContextOptions(o) && StepBits(o) == OPTION_STEP_OFF && ModeBits(o) == ModeBits(options)
  {}

  lemma PlainAt(c: seq<bv8>, m: seq<bv8>, i: nat, k: nat)
    requires i + k < |m| && 32 + |m| <= |c| && c[32 + i..32 + |m|] == m[i..]
    ensures c[32 + i + k] == Padded(m)[i + k]
  {
    assert c[32 + i + k] == c[32 + i..32 + |m|][k] == m[i..][k] == m[i + k];
  }

  /** The output buffer with the blocks `out` in place, the rest of the message still plain after them. */
  ghost predicate Filled(c: seq<bv8>, head: seq<bv8>, out: seq<bv8>, m: seq<bv8>, was: seq<bv8>) {
    && |c| == |was| && 32 + |Padded(m)| <= |c| && |out| <= |Padded(m)|
    && |head| == 32 && c[..32 + |out|] == head + out
    && (|out| < |m| ==> c[32 + |out|..32 + |m|] == m[|out|..])
    && c[32 + |Padded(m)|..] == was[32 + |Padded(m)|..]
  }

  lemma FilledStep(c: seq<bv8>, head: seq<bv8>, out: seq<bv8>, m: seq<bv8>, was: seq<bv8>, block: Block)
    requires Filled(c, head, out, m, was) && |out| < |m| && |out| + 16 <= |Padded(m)|
    ensures Filled(Splice(c, 32 + |out|, block), head, out + block, m, was)
  {
    hide Padded;
    var at := 32 + |out|;
    var r := Splice(c, at, block);
    assert r[..at + 16] == head + out + block;
    assert head + out + block == head + (out + block);
    if at + 16 < 32 + |m| {
      assert r[at + 16..32 + |m|] == c[at..32 + |m|][16..] == m[|out|..][16..];
    }
  }

  /** The three copies at the start of oaes_encrypt. */
  lemma Layout(was: seq<bv8>, header: Block, iv: Block, m: seq<bv8>)
    requires 32 + |Padded(m)| <= |was|
    ensures Filled(Splice(Splice(Splice(was, 0, header), 16, iv), 32, m), header + iv, [], m, was)
  {
    hide PadBytes;
    var one := Splice(was, 0, header);
    assert one == header + was[16..];
    var two := Splice(one, 16, iv);
    assert two == header + iv + was[32..];
    var three := Splice(two, 32, m);
    assert three == header + iv + m + was[32 + |m|..];
  }

  lemma NothingYet(w: seq<bv8>, n: nat, cbc: bool, iv: Block, data: seq<bv8>)
    requires Keys(w, n)
    ensures EncryptBlocks(w, n, cbc, iv, data, 0) == [] && Before(iv, []) == iv
  {}

  lemma NextBlock(w: seq<bv8>, n: nat, cbc: bool, iv: Block, data: seq<bv8>, j: nat, prev: Block)
    requires Keys(w, n) && 16 * j + 16 <= |data|
    requires cbc ==> prev == Before(iv, EncryptBlocks(w, n, cbc, iv, data, j))
    ensures BlockAt(data, j) == data[16 * j..16 * j + 16]
    ensures var out := EncryptBlocks(w, n, cbc, iv, data, j);
            var block := EncryptOne(w, n, cbc, BlockAt(data, j), prev);
            EncryptBlocks(w, n, cbc, iv, data, j + 1) == out + block && Before(iv, out + block) == block
  {
    hide Cipher;
  }

  lemma PadsOnlyTheLast(m: seq<bv8>, i: nat)
    requires i % 16 == 0 && i < |Padded(m)|
    ensures i < |m| && i + 16 <= |Padded(m)|
  {}

  lemma PlainRest(c: seq<bv8>, head: seq<bv8>, out: seq<bv8>, m: seq<bv8>, was: seq<bv8>)
    requires Filled(c, head, out, m, was)
    ensures 32 + |Padded(m)| <= |c|
    ensures |out| < |m| ==> c[32 + |out|..32 + |m|] == m[|out|..]
  {}

  lemma Finished(c: seq<bv8>, w: seq<bv8>, n: nat, options: bv16, iv: Block, m: seq<bv8>, was: seq<bv8>)
    requires Keys(w, n)
    requires Filled(c, MakeHeader(options, if PadLength(|m|) > 0 then FLAG_PAD else 0) + iv,
                    EncryptBlocks(w, n, Chains(options), iv, Padded(m), |Padded(m)| / 16), m, was)
    ensures |c| == |was| && 32 + |Padded(m)| <= |c|
    ensures c[..32 + |Padded(m)|] == Seal(w, n, options, iv, m) && c[32 + |Padded(m)|..] == was[32 + |Padded(m)|..]
  {
    hide MakeHeader, EncryptBlocks, Padded;
  }

  lemma SpliceAll(s: seq<bv8>, src: seq<bv8>)
    requires |s| == |src|
    ensures Splice(s, 0, src) == src
  {}

  lemma FlagMasks(flags: bv8)
    ensures (flags & !FLAG_PAD == 0) <==> flags == 0 || flags == FLAG_PAD
    ensures (flags == 0 || flags == FLAG_PAD) ==> (flags & FLAG_PAD != 0) == (flags == FLAG_PAD)
  {}

  function Value(b: bv8): nat { b as nat }

  lemma UnpadBounds(m: seq<bv8>)
    requires |m| >= 16
    ensures !(0 < Value(m[|m| - 1]) < 16) ==> Unpad(m) == Refused
  {}

  /** The last `i` bytes count down from `k`, read from the end. */
  predicate TailCounts(m: seq<bv8>, k: nat, i: nat) {
    i <= |m| && forall j :: |m| - i <= j < |m| ==> Value(m[j]) == k - (|m| - 1 - j)
  }

  lemma NothingCounted(m: seq<bv8>, k: nat)
    ensures TailCounts(m, k, 0)
  {}

  lemma OneMoreCounted(m: seq<bv8>, k: nat, i: nat)
    requires i < |m|
    ensures TailCounts(m, k, i + 1) <==> TailCounts(m, k, i) && Value(m[|m| - 1 - i]) == k - i
  {
    hide Value;
  }

  lemma PadCountsDown(m: seq<bv8>, k: nat, isPad: bool)
    requires |m| >= 16 && 0 < k < 16 && Value(m[|m| - 1]) == k
    requires isPad <==> TailCounts(m, k, k)
    ensures Unpad(m) == if isPad then Message(m[..|m| - k]) else Refused
  {
    hide Value, PadBytes;
    var tail := m[|m| - k..];
    UnpadIs(m, k);
    if isPad {
      forall i | 0 <= i < k ensures tail[i] == PadBytes(k)[i] {
        SameByte(tail[i], k, i);
      }
    } else {
      var j :| |m| - k <= j < |m| && Value(m[j]) != k - (|m| - 1 - j);
      SameByte(tail[j - (|m| - k)], k, j - (|m| - k));
      assert tail[j - (|m| - k)] != PadBytes(k)[j - (|m| - k)];
    }
  }

  lemma UnpadIs(m: seq<bv8>, k: nat)
    requires |m| >= 16 && 0 < k < 16 && Value(m[|m| - 1]) == k
    ensures Unpad(m) == if m[|m| - k..] == PadBytes(k) then Message(m[..|m| - k]) else Refused
  {
    hide PadBytes;
  }

  lemma SameByte(b: bv8, k: nat, i: nat)
    requires i < k < 16
    ensures Value(b) == i + 1 <==> b == PadBytes(k)[i]
  {
    SmallByte(i + 1);
    assert b == (b as nat) as bv8;
  }

  /** The message buffer of oaes_decrypt with `plain` in place, cipher blocks after it. */
  ghost predicate Opening(m: seq<bv8>, plain: seq<bv8>, c: seq<bv8>, was: seq<bv8>) {
    && |c| >= 32 && |m| == |was| && |c| - 32 <= |m| && |plain| <= |c| - 32
    && m[..|plain|] == plain
    && m[|plain|..|c| - 32] == c[32 + |plain|..]
    && m[|c| - 32..] == was[|c| - 32..]
  }

  lemma OpeningStarts(was: seq<bv8>, c: seq<bv8>, w: seq<bv8>, n: nat, cbc: bool)
    requires 32 <= |c| <= 32 + |was| && Keys(w, n)
    ensures Opening(Splice(was, 0, c[32..]), DecryptBlocks(w, n, cbc, c[16..], 0), c, was)
  {}

  lemma OpeningRest(m: seq<bv8>, plain: seq<bv8>, c: seq<bv8>, was: seq<bv8>)
    requires Opening(m, plain, c, was) && |plain| + 16 <= |c| - 32
    ensures |c| - 32 <= |m| && m[|plain|..|plain| + 16] == c[32 + |plain|..32 + |plain| + 16]
  {
    var d := |plain|;
    assert m[d..d + 16] == m[d..|c| - 32][..16] == c[32 + d..][..16];
  }

  lemma OpeningStep(m: seq<bv8>, plain: seq<bv8>, c: seq<bv8>, was: seq<bv8>, block: Block)
    requires Opening(m, plain, c, was) && |plain| + 16 <= |c| - 32
    ensures Opening(Splice(m, |plain|, block), plain + block, c, was)
  {
    var r, d := Splice(m, |plain|, block), |plain|;
    assert r[..d + 16] == plain + block;
    assert r[d + 16..|c| - 32] == m[d..|c| - 32][16..] == c[32 + d..][16..];
  }

  lemma OpeningEnds(m: seq<bv8>, plain: seq<bv8>, c: seq<bv8>, was: seq<bv8>)
    requires Opening(m, plain, c, was) && |plain| == |c| - 32
    ensures m[..|c| - 32] == plain && m[|c| - 32..] == was[|c| - 32..]
  {}

  lemma NextPlain(w: seq<bv8>, n: nat, cbc: bool, c: seq<bv8>, j: nat)
    requires Keys(w, n) && 32 + 16 * j + 16 <= |c|
    ensures var i := 16 * j;
            DecryptBlocks(w, n, cbc, c[16..], j + 1)
              == DecryptBlocks(w, n, cbc, c[16..], j) +
                 PlainBlock(c, i, cbc, w, n)
  {
    hide InvCipher, AddRoundKey;
    assert BlockAt(c[16..], j + 1) == c[32 + 16 * j..32 + 16 * j + 16];
    assert BlockAt(c[16..], j) == c[16 + 16 * j..32 + 16 * j];
  }
}
