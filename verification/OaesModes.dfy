/** oaes_encrypt_block, oaes_decrypt_block, oaes_encrypt and oaes_decrypt (CryptoNight/oaes_lib.c):
    ECB and CBC (sections 6.1 and 6.2 of NIST SP 800-38A) behind a header, with padding. */
module OaesModes {
  import opened OaesBlock

  const OPTION_ECB: bv16 := 1
  const OPTION_CBC: bv16 := 2
  const OPTION_STEP_ON: bv16 := 4
  const OPTION_STEP_OFF: bv16 := 8
  const FLAG_PAD: bv8 := 1
  const TWO_64: nat := 0x1_0000_0000_0000_0000

  // ----- the data part

  /** Round keys: at least two of them. */
  predicate Keys(w: seq<bv8>, n: nat) {
    n >= 2 && |w| == 16 * n
  }

  function BlockAt(data: seq<bv8>, j: nat): Block
    requires 16 * j + 16 <= |data|
  {
    data[16 * j..16 * j + 16]
  }

  /** The cipher block before block j: the initialisation vector, or the last block put out. */
  function Before(iv: Block, out: seq<bv8>): Block
    requires out == [] || |out| >= 16
  {
    if out == [] then iv else out[|out| - 16..]
  }

  /** The first `j` cipher blocks: in CBC each plain block is added to the cipher block before it. */
  function EncryptBlocks(w: seq<bv8>, n: nat, cbc: bool, iv: Block, data: seq<bv8>, j: nat): (out: seq<bv8>)
    requires Keys(w, n) && 16 * j <= |data|
    ensures |out| == 16 * j
  {
    if j == 0 then []
    else
      var out := EncryptBlocks(w, n, cbc, iv, data, j - 1);
      out + EncryptOne(w, n, cbc, BlockAt(data, j - 1), Before(iv, out))
  }

  function EncryptOne(w: seq<bv8>, n: nat, cbc: bool, block: Block, prev: Block): Block
    requires Keys(w, n)
  {
    Cipher(Masked(cbc, block, prev), w, n)
  }

  function Masked(cbc: bool, block: Block, prev: Block): Block {
    if cbc then AddRoundKey(block, prev) else block
  }

  /** The first `j` plain blocks of a message whose initialisation vector is its block 0. */
  function DecryptBlocks(w: seq<bv8>, n: nat, cbc: bool, ivAndData: seq<bv8>, j: nat): (out: seq<bv8>)
    requires Keys(w, n) && 16 * j + 16 <= |ivAndData|
    ensures |out| == 16 * j
  {
    if j == 0 then []
    else
      DecryptBlocks(w, n, cbc, ivAndData, j - 1) +
      Masked(cbc, InvCipher(BlockAt(ivAndData, j), w, n), BlockAt(ivAndData, j - 1))
  }

  lemma {:induction false} EncryptPrefix(w: seq<bv8>, n: nat, cbc: bool, iv: Block, data: seq<bv8>, j: nat, k: nat)
    requires Keys(w, n) && j <= k && 16 * k <= |data|
    ensures EncryptBlocks(w, n, cbc, iv, data, k)[..16 * j] == EncryptBlocks(w, n, cbc, iv, data, j)
    decreases k
  {
    hide EncryptOne, Before, BlockAt;
    if j < k {
      EncryptPrefix(w, n, cbc, iv, data, j, k - 1);
      var out := EncryptBlocks(w, n, cbc, iv, data, k);
      assert out[..16 * j] == out[..16 * (k - 1)][..16 * j];
    }
  }

  lemma CipherBlockAt(w: seq<bv8>, n: nat, cbc: bool, iv: Block, data: seq<bv8>, j: nat, k: nat)
    requires Keys(w, n) && 1 <= j <= k && 16 * k <= |data|
    ensures var c := iv + EncryptBlocks(w, n, cbc, iv, data, k);
            BlockAt(c, j) == EncryptOne(w, n, cbc, BlockAt(data, j - 1), BlockAt(c, j - 1))
  {
    hide EncryptOne, EncryptBlocks, BlockAt, Before, Keys;
    var out := EncryptBlocks(w, n, cbc, iv, data, k);
    BlocksOfOutput(iv, out, j);
    StepOf(w, n, cbc, iv, data, j);
    assert out[..16 * j] == EncryptBlocks(w, n, cbc, iv, data, j) by { EncryptPrefix(w, n, cbc, iv, data, j, k); }
    assert out[..16 * (j - 1)] == EncryptBlocks(w, n, cbc, iv, data, j - 1) by {
      EncryptPrefix(w, n, cbc, iv, data, j - 1, k);
    }
  }

  lemma BlocksOfOutput(iv: Block, out: seq<bv8>, j: nat)
    requires 1 <= j && 16 * j <= |out|
    ensures BlockAt(iv + out, j) == out[..16 * j][16 * (j - 1)..]
    ensures BlockAt(iv + out, j - 1) == Before(iv, out[..16 * (j - 1)])
  {
    var at := 16 * (j - 1);
    SliceAfter(iv, out, at, at + 16);
    SliceTwice(out, at, at + 16);
    if j > 1 {
      SliceAfter(iv, out, at - 16, at);
      SliceTwice(out, at - 16, at);
    }
  }

  lemma SliceAfter(a: Block, b: seq<bv8>, i: nat, j: nat)
    requires i <= j <= |b|
    ensures (a + b)[i + 16..j + 16] == b[i..j]
  {}

  lemma SliceTwice(b: seq<bv8>, i: nat, j: nat)
    requires i <= j <= |b|
    ensures b[..j][i..] == b[i..j]
  {}

  lemma StepOf(w: seq<bv8>, n: nat, cbc: bool, iv: Block, data: seq<bv8>, j: nat)
    requires Keys(w, n) && 1 <= j && 16 * j <= |data|
    ensures EncryptBlocks(w, n, cbc, iv, data, j)[16 * (j - 1)..]
              == EncryptOne(w, n, cbc, BlockAt(data, j - 1), Before(iv, EncryptBlocks(w, n, cbc, iv, data, j - 1)))
  {
    hide EncryptOne, Before, BlockAt;
  }

  /** Decrypting the blocks undoes encrypting them, in both modes. */
  lemma {:induction false} DecryptInvertsEncrypt(w: seq<bv8>, n: nat, cbc: bool, iv: Block, data: seq<bv8>, j: nat,
                                                 k: nat)
    requires Keys(w, n) && j <= k && 16 * k <= |data|
    ensures DecryptBlocks(w, n, cbc, iv + EncryptBlocks(w, n, cbc, iv, data, k), j) == data[..16 * j]
    decreases j
  {
    hide Cipher, InvCipher, AddRoundKey, EncryptBlocks;
    var c := iv + EncryptBlocks(w, n, cbc, iv, data, k);
    if j > 0 {
      DecryptInvertsEncrypt(w, n, cbc, iv, data, j - 1, k);
      CipherBlockAt(w, n, cbc, iv, data, j, k);
      InvCipherInvertsCipher(Masked(cbc, BlockAt(data, j - 1), BlockAt(c, j - 1)), w, n);
      KeyAddedTwice(BlockAt(data, j - 1), BlockAt(c, j - 1));
      assert data[..16 * j] == data[..16 * (j - 1)] + BlockAt(data, j - 1);
    }
  }

  // ----- padding

  function PadLength(n: nat): (k: nat)
    ensures k < 16 && (n + k) % 16 == 0
  {
    if n % 16 == 0 then 0 else 16 - n % 16
  }

  /** 1, 2, ..., k */
  function PadBytes(k: nat): (s: seq<bv8>)
    requires k < 16
    ensures |s| == k
  {
    seq(k, i requires 0 <= i < k => (i + 1) as bv8)
  }

  function Padded(m: seq<bv8>): (p: seq<bv8>)
    ensures |p| % 16 == 0 && |m| <= |p|
  {
    m + PadBytes(PadLength(|m|))
  }

  datatype Opened = Message(text: seq<bv8>) | Refused

  /** The last byte says how many; the ones before it must count down to 1. */
  function Unpad(m: seq<bv8>): Opened
    requires |m| >= 16
  {
    var k := m[|m| - 1] as nat;
    if 0 < k < 16 && m[|m| - k..] == PadBytes(k) then Message(m[..|m| - k]) else Refused
  }

  lemma UnpadInvertsPad(m: seq<bv8>)
    requires PadLength(|m|) > 0
    ensures |Padded(m)| >= 16 && Unpad(Padded(m)) == Message(m)
  {
    var k := PadLength(|m|);
    var p := Padded(m);
    assert p[|p| - 1] == PadBytes(k)[k - 1] == k as bv8;
    SmallByte(k);
    assert p[|p| - k..] == PadBytes(k);
  }

  lemma SmallByte(k: nat)
    requires k < 16
    ensures (k as bv8) as nat == k
  {
    assert k == 0 || k == 1 || k == 2 || k == 3 || k == 4 || k == 5 || k == 6 || k == 7 || k == 8 || k == 9 ||
           k == 10 || k == 11 || k == 12 || k == 13 || k == 14 || k == 15;
  }

  // ----- whole messages

  /** CBC, whatever the step bits are. (The stepping code is compiled in: its switch is defined, as 0.) */
  predicate Chains(options: bv16) { options & OPTION_CBC != 0 }

  function ModeBits(options: bv16): bv16 { options & (OPTION_ECB | OPTION_CBC) }
  function StepBits(options: bv16): bv16 { options & (OPTION_STEP_ON | OPTION_STEP_OFF) }

  /** What a context holds: one mode and one step bit. */
  predicate ContextOptions(options: bv16) {
    && (ModeBits(options) == OPTION_ECB || ModeBits(options) == OPTION_CBC)
    && (StepBits(options) == OPTION_STEP_ON || StepBits(options) == OPTION_STEP_OFF)
    && options == ModeBits(options) | StepBits(options)
  }

  /** What oaes_decrypt takes from a header: known bits, not both modes, not nothing. */
  predicate HeaderOptions(options: bv16) {
    && options & !(OPTION_ECB | OPTION_CBC | OPTION_STEP_ON | OPTION_STEP_OFF) == 0
    && !(options & OPTION_ECB != 0 && options & OPTION_CBC != 0)
    && options != 0
  }

  /** Every header that a context writes is taken. */
  lemma ContextOptionsPass(options: bv16)
    ensures ContextOptions(options) <==> options == 5 || options == 6 || options == 9 || options == 10
    ensures ContextOptions(options) ==> HeaderOptions(options)
  {}

  function LowByte(options: bv16): bv8 { (options & 0xff) as bv8 }
  function HighByte(options: bv16): bv8 { (options >> 8) as bv8 }
  function JoinBytes(low: bv8, high: bv8): bv16 { (low as bv16) | ((high as bv16) << 8) }

  lemma OptionBytes(options: bv16)
    ensures JoinBytes(LowByte(options), HighByte(options)) == options
  {}

  function MakeHeader(options: bv16, flags: bv8): Block {
    [0x4f, 0x41, 0x45, 0x53, 0x01, 0x02, LowByte(options), HighByte(options), flags, 0, 0, 0, 0, 0, 0, 0]
  }

  /** What oaes_encrypt writes. */
  function Seal(w: seq<bv8>, n: nat, options: bv16, iv: Block, m: seq<bv8>): (c: seq<bv8>)
    requires Keys(w, n)
    ensures |c| == 32 + |Padded(m)|
  {
    var data := Padded(m);
    MakeHeader(options, if PadLength(|m|) > 0 then FLAG_PAD else 0) + iv +
    EncryptBlocks(w, n, Chains(options), iv, data, |data| / 16)
  }

  /** The initialisation vector a context is left with: in CBC the last block it put out. */
  function ChainedIv(w: seq<bv8>, n: nat, options: bv16, iv: Block, m: seq<bv8>): Block
    requires Keys(w, n)
  {
    if Chains(options) then Before(iv, EncryptBlocks(w, n, true, iv, Padded(m), |Padded(m)| / 16)) else iv
  }

  predicate HeaderOk(c: seq<bv8>)
    requires |c| >= 32
  {
    var options := JoinBytes(c[6], c[7]);
    && c[..4] == [0x4f, 0x41, 0x45, 0x53] && c[4] == 0x01 && c[5] == 0x02
    && HeaderOptions(options)
    && (c[8] == 0 || c[8] == FLAG_PAD)
  }

  /** What oaes_decrypt reads back; it refuses some headers and paddings.
      The pad flag on a message without data makes the C code look before its buffer. */
  function Open(w: seq<bv8>, n: nat, c: seq<bv8>): Opened
    requires Keys(w, n) && |c| >= 32 && |c| % 16 == 0
    requires c[8] == FLAG_PAD ==> |c| > 32
  {
    if !HeaderOk(c) then Refused
    else
      var m := DecryptBlocks(w, n, Chains(JoinBytes(c[6], c[7])), c[16..], |c| / 16 - 2);
      if c[8] == FLAG_PAD then Unpad(m) else Message(m)
  }

  /** Decryption gives every message back, of every length, whatever the keys and the initialisation vector, with and
      without chaining; it refuses what was written with options that no context holds and no header may. */
  lemma OpenInvertsSeal(w: seq<bv8>, n: nat, options: bv16, iv: Block, m: seq<bv8>)
    requires Keys(w, n)
    ensures var c := Seal(w, n, options, iv, m);
            && |c| % 16 == 0 && (c[8] == FLAG_PAD ==> |c| > 32)
            && Open(w, n, c) == if HeaderOptions(options) then Message(m) else Refused
  {
    hide EncryptBlocks, DecryptBlocks, Unpad, PadBytes, HeaderOptions, Chains, LowByte, HighByte, JoinBytes;
    var c, data := Seal(w, n, options, iv, m), Padded(m);
    var header := MakeHeader(options, if PadLength(|m|) > 0 then FLAG_PAD else 0);
    assert c[..16] == header;
    assert c[..4] == header[..4];
    assert forall i :: 4 <= i < 9 ==> c[i] == header[i];
    OptionBytes(options);
    var cbc, k := Chains(options), |data| / 16;
    assert c[16..] == iv + EncryptBlocks(w, n, cbc, iv, data, k);
    DecryptInvertsEncrypt(w, n, cbc, iv, data, k, k);
    assert data[..16 * k] == data;
    if PadLength(|m|) > 0 {
      UnpadInvertsPad(m);
    } else {
      assert data == m;
    }
  }

  /** Byte `i` of a message as it is enciphered: its own, or behind it 1, 2, and so on. */
  function FilledByte(m: seq<bv8>, i: nat): bv8
    requires i < |m| + 16
  {
    if i < |m| then m[i] else (i - |m| + 1) as bv8
  }

  /** The front of a sealed message: the header, then the initialisation vector. */
  lemma SealHeader(w: seq<bv8>, n: nat, options: bv16, iv: Block, m: seq<bv8>)
    requires Keys(w, n)
    ensures var c := Seal(w, n, options, iv, m);
            && |c| == 32 + (|m| + 15) / 16 * 16
            && c[..6] == [0x4f, 0x41, 0x45, 0x53, 0x01, 0x02] && JoinBytes(c[6], c[7]) == options
            && c[8] == (if |m| % 16 == 0 then 0 else 1) && c[9..16] == [0, 0, 0, 0, 0, 0, 0] && c[16..32] == iv
  {
    hide EncryptBlocks, PadBytes, LowByte, HighByte, JoinBytes, Chains;
    var c, header := Seal(w, n, options, iv, m), MakeHeader(options, if PadLength(|m|) > 0 then FLAG_PAD else 0);
    OptionBytes(options);
    SealedLength(|m|);
    assert c[..6] == header[..6] && c[6] == header[6] && c[7] == header[7] && c[8] == header[8];
    assert c[9..16] == header[9..16] && c[16..32] == iv;
  }

  /** Behind it each block of the filled message enciphered, the block before it added if the options say so. */
  predicate SealedBlock(w: seq<bv8>, n: nat, cbc: bool, c: seq<bv8>, j: nat, block: Block)
    requires Keys(w, n)
  {
    && 16 * (j + 2) + 16 <= |c|
    && BlockAt(c, j + 2) == Cipher(if cbc then AddRoundKey(block, BlockAt(c, j + 1)) else block, w, n)
  }

  lemma SealBlocks(w: seq<bv8>, n: nat, options: bv16, iv: Block, m: seq<bv8>, block: Block, j: nat)
    requires Keys(w, n) && 16 * j < |m|
    requires forall i :: 0 <= i < 16 ==> block[i] == FilledByte(m, 16 * j + i)
    ensures SealedBlock(w, n, options & 2 != 0, Seal(w, n, options, iv, m), j, block)
  {
    hide EncryptBlocks, PadBytes, Cipher, AddRoundKey, FilledByte, MakeHeader;
    var c, data, k := Seal(w, n, options, iv, m), Padded(m), |Padded(m)| / 16;
    var header := MakeHeader(options, if PadLength(|m|) > 0 then FLAG_PAD else 0);
    var body := iv + EncryptBlocks(w, n, Chains(options), iv, data, k);
    assert c == header + body;
    PaddedBlock(m, block, j);
    CipherBlockAt(w, n, Chains(options), iv, data, j + 1, k);
    assert BlockAt(c, j + 2) == BlockAt(body, j + 1) && BlockAt(c, j + 1) == BlockAt(body, j);
  }

  lemma SealedLength(n: nat)
    ensures n + PadLength(n) == (n + 15) / 16 * 16
  {}

  lemma PaddedBlock(m: seq<bv8>, block: Block, j: nat)
    requires 16 * j < |m| && forall i :: 0 <= i < 16 ==> block[i] == FilledByte(m, 16 * j + i)
    ensures 16 * j + 16 <= |Padded(m)| && BlockAt(Padded(m), j) == block
  {
    var p := Padded(m);
    forall i | 0 <= i < 16 ensures BlockAt(p, j)[i] == block[i] {
      FilledAt(m, 16 * j + i);
    }
  }

  lemma FilledAt(m: seq<bv8>, i: nat)
    requires i < |Padded(m)|
    ensures Padded(m)[i] == FilledByte(m, i)
  {
    hide PadLength;
  }
}
