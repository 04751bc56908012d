/** The converse of decryption (CryptoNight/oaes_lib.c): enciphering undoes deciphering, and what oaes_decrypt takes is
    what oaes_encrypt writes. The blocks are finitely many, so the one inverse gives the other. */
module OaesConverse {
  import opened OaesBlock
  import opened OaesModes

  // ----- all bytes, all blocks

  function Bit(k: nat): bv8
    requires k < 8
  {
    [0x01, 0x02, 0x04, 0x08, 0x10, 0x20, 0x40, 0x80][k]
  }

  function Limit(k: nat): bv8
    requires k <= 8
  {
    [0x00, 0x01, 0x03, 0x07, 0x0f, 0x1f, 0x3f, 0x7f, 0xff][k]
  }

  function Flip(b: bv8, bit: bv8): bv8 { b ^ bit }

  /** All bytes of the lowest `k` bits. */
  function BytesOf(k: nat): set<bv8>
    requires k <= 8
  {
    if k == 0 then {0}
    else
      var bytes := BytesOf(k - 1);
      bytes + set b | b in bytes :: Flip(b, Bit(k - 1))
  }

  lemma {:induction false} EveryByte(b: bv8, k: nat)
    requires k <= 8 && b <= Limit(k)
    ensures b in BytesOf(k)
  {
    hide Bit, Limit, Flip;
    if k == 0 {
      OnlyZero(b);
    } else {
      if b <= Limit(k - 1) {
        EveryByte(b, k - 1);
      } else {
        Flipped(b, k);
        EveryByte(Flip(b, Bit(k - 1)), k - 1);
      }
    }
  }

  lemma OnlyZero(b: bv8)
    requires b <= Limit(0)
    ensures b == 0
  {}

  lemma Flipped(b: bv8, k: nat)
    requires 0 < k <= 8 && Limit(k - 1) < b <= Limit(k)
    ensures Flip(b, Bit(k - 1)) <= Limit(k - 1) && Flip(Flip(b, Bit(k - 1)), Bit(k - 1)) == b
  {
    if k == 1 {} else if k == 2 {} else if k == 3 {} else if k == 4 {}
    else if k == 5 {} else if k == 6 {} else if k == 7 {} else {}
  }

  function AllSeqs(n: nat): set<seq<bv8>> {
    if n == 0 then {[]} else set s, b | s in AllSeqs(n - 1) && b in BytesOf(8) :: s + [b]
  }

  lemma {:induction false} EverySeq(s: seq<bv8>)
    ensures s in AllSeqs(|s|)
    decreases |s|
  {
    hide BytesOf;
    if s != [] {
      var n := |s| - 1;
      EverySeq(s[..n]);
      EveryByte(s[n], 8);
      assert s == s[..n] + [s[n]];
    }
  }

  lemma {:induction false} Imaged<T>(all: set<T>, f: T -> T, g: T -> T)
    requires forall x :: x in all ==> g(f(x)) == x
    ensures |set x | x in all :: f(x)| == |all|
  {
    if all != {} {
      var x :| x in all;
      Imaged(all - {x}, f, g);
      assert (set y | y in all :: f(y)) == (set y | y in all - {x} :: f(y)) + {f(x)};
    }
  }

  lemma {:induction false} SmallerSet<T>(a: set<T>, b: set<T>)
    requires a <= b && |a| >= |b|
    ensures a == b
  {
    if a != {} {
      var x :| x in a;
      SmallerSet(a - {x}, b - {x});
    }
  }

  /** On a finite set a map that can be undone reaches everything, so it undoes in turn. */
  lemma UndoneIsOnto<T>(all: set<T>, f: T -> T, g: T -> T, y: T)
    requires forall x :: x in all ==> f(x) in all && g(f(x)) == x
    requires y in all
    ensures f(g(y)) == y
  {
    var image := set x | x in all :: f(x);
    Imaged(all, f, g);
    SmallerSet(image, all);
    assert y in image;
  }

  /** The cipher undoes the inverse cipher, too. */
  lemma CipherInvertsInvCipher(s: Block, w: seq<bv8>, n: nat)
    requires n >= 2 && |w| == 16 * n
    ensures Cipher(InvCipher(s, w, n), w, n) == s
  {
    hide Cipher, InvCipher, AllSeqs;
    var f := (x: seq<bv8>) => if |x| == 16 then Cipher(x, w, n) else x;
    var g := (x: seq<bv8>) => if |x| == 16 then InvCipher(x, w, n) else x;
    var all := set x | x in AllSeqs(16) && |x| == 16;
    forall x | x in all ensures f(x) in all && g(f(x)) == x {
      InvCipherInvertsCipher(x, w, n);
      EverySeq(f(x));
    }
    EverySeq(s);
    UndoneIsOnto(all, f, g, s);
  }

  // ----- messages

  /** Encrypting the blocks undoes decrypting them, in both modes. */
  lemma {:induction false} EncryptInvertsDecrypt(w: seq<bv8>, n: nat, cbc: bool, c: seq<bv8>, j: nat, k: nat)
    requires Keys(w, n) && j <= k && |c| == 16 * k + 16
    ensures EncryptBlocks(w, n, cbc, c[..16], DecryptBlocks(w, n, cbc, c, k), j) == c[16..16 * j + 16]
    decreases j
  {
    hide Keys, BlockAt, Before, EncryptOne, Masked, DecryptBlocks;
    if j > 0 {
      EncryptInvertsDecrypt(w, n, cbc, c, j - 1, k);
      PlainBlockAt(w, n, cbc, c, j, k);
      BlocksOf(c, j);
      Unmasked(w, n, cbc, BlockAt(c, j), BlockAt(c, j - 1));
    }
  }

  lemma BlocksOf(c: seq<bv8>, j: nat)
    requires 0 < j && |c| >= 16 * j + 16
    ensures Before(c[..16], c[16..16 * j]) == BlockAt(c, j - 1)
    ensures c[16..16 * j + 16] == c[16..16 * (j - 1) + 16] + BlockAt(c, j)
  {}

  lemma Unmasked(w: seq<bv8>, n: nat, cbc: bool, block: Block, prev: Block)
    requires Keys(w, n)
    ensures EncryptOne(w, n, cbc, Masked(cbc, InvCipher(block, w, n), prev), prev) == block
  {
    hide Cipher, InvCipher, AddRoundKey;
    KeyAddedTwice(InvCipher(block, w, n), prev);
    CipherInvertsInvCipher(block, w, n);
  }

  lemma {:induction false} PlainBlockAt(w: seq<bv8>, n: nat, cbc: bool, c: seq<bv8>, j: nat, k: nat)
    requires Keys(w, n) && 0 < j <= k && |c| == 16 * k + 16
    ensures BlockAt(DecryptBlocks(w, n, cbc, c, k), j - 1)
         == Masked(cbc, InvCipher(BlockAt(c, j), w, n), BlockAt(c, j - 1))
  {
    hide Masked;
    PlainPrefix(w, n, cbc, c, j, k);
    var out := DecryptBlocks(w, n, cbc, c, k);
    assert BlockAt(out, j - 1) == out[..16 * j][16 * (j - 1)..];
  }

  lemma {:induction false} PlainPrefix(w: seq<bv8>, n: nat, cbc: bool, c: seq<bv8>, j: nat, k: nat)
    requires Keys(w, n) && j <= k && 16 * k + 16 <= |c|
    ensures DecryptBlocks(w, n, cbc, c, k)[..16 * j] == DecryptBlocks(w, n, cbc, c, j)
    decreases k
  {
    hide Masked, BlockAt, InvCipher;
    if j < k {
      PlainPrefix(w, n, cbc, c, j, k - 1);
      StillFront(DecryptBlocks(w, n, cbc, c, k - 1), Masked(cbc, InvCipher(BlockAt(c, k), w, n), BlockAt(c, k - 1)),
                 16 * j);
    }
  }

  lemma StillFront(a: seq<bv8>, b: seq<bv8>, n: nat)
    requires n <= |a|
    ensures (a + b)[..n] == a[..n]
  {}

  /** A message with the bytes of its header that are not used set to zero, as oaes_encrypt sets them. */
  function Cleared(c: seq<bv8>): (s: seq<bv8>)
    requires |c| >= 32
    ensures |s| == |c|
  {
    c[..9] + [0, 0, 0, 0, 0, 0, 0] + c[16..]
  }

  lemma JoinedBytes(low: bv8, high: bv8)
    ensures LowByte(JoinBytes(low, high)) == low && HighByte(JoinBytes(low, high)) == high
  {}

  lemma UnpadIsPad(p: seq<bv8>)
    requires |p| >= 16 && |p| % 16 == 0 && Unpad(p).Message?
    ensures PadLength(|Unpad(p).text|) > 0 && Padded(Unpad(p).text) == p
  {
    hide PadBytes;
    var k := p[|p| - 1] as nat;
    assert PadLength(|p| - k) == k;
    assert p == p[..|p| - k] + p[|p| - k..];
  }

  /** What is taken is what was written, with the options and the vector that it shows: a message is read from
      exactly the bytes that encryption makes of it, but for the header bytes that are not used. */
  lemma OpensExactlySealed(w: seq<bv8>, n: nat, c: seq<bv8>, m: seq<bv8>)
    requires Keys(w, n) && |c| >= 32 && |c| % 16 == 0
    requires c[8] == FLAG_PAD ==> |c| > 32
    ensures var options := JoinBytes(c[6], c[7]);
            Open(w, n, c) == Message(m) <==>
              HeaderOptions(options) && Cleared(c) == Seal(w, n, options, c[16..32], m)
  {
    hide Seal, EncryptBlocks, DecryptBlocks, Unpad, PadBytes, HeaderOptions, Chains, JoinBytes, Cleared, Padded;
    var options := JoinBytes(c[6], c[7]);
    if Open(w, n, c) == Message(m) {
      var p := DecryptBlocks(w, n, Chains(options), c[16..], |c| / 16 - 2);
      if c[8] == FLAG_PAD { UnpadIsPad(p); } else { WholeBlocks(p); }
      HeaderOf(c, options);
      SealedAgain(w, n, options, c[8], c, m, |c| / 16 - 2);
    }
    if HeaderOptions(options) && Cleared(c) == Seal(w, n, options, c[16..32], m) {
      OpenInvertsSeal(w, n, options, c[16..32], m);
      SameOpened(w, n, c);
    }
  }

  lemma SameOpened(w: seq<bv8>, n: nat, c: seq<bv8>)
    requires Keys(w, n) && |c| >= 32 && |c| % 16 == 0
    requires c[8] == FLAG_PAD ==> |c| > 32
    ensures Open(w, n, Cleared(c)) == Open(w, n, c)
  {
    hide DecryptBlocks, Unpad, HeaderOptions, Chains, JoinBytes;
    assert Cleared(c)[..4] == c[..4] && Cleared(c)[16..] == c[16..];
  }

  lemma HeaderOf(c: seq<bv8>, options: bv16)
    requires |c| >= 32 && c[..4] == [0x4f, 0x41, 0x45, 0x53] && c[4] == 0x01 && c[5] == 0x02
    requires options == JoinBytes(c[6], c[7])
    ensures c[..9] + [0, 0, 0, 0, 0, 0, 0] == MakeHeader(options, c[8])
  {
    hide JoinBytes, LowByte, HighByte;
    JoinedBytes(c[6], c[7]);
    SameHeader(c, MakeHeader(options, c[8]));
  }

  lemma SealedAgain(w: seq<bv8>, n: nat, options: bv16, flags: bv8, c: seq<bv8>, m: seq<bv8>, k: nat)
    requires Keys(w, n) && |c| == 16 * k + 32
    requires c[..9] + [0, 0, 0, 0, 0, 0, 0] == MakeHeader(options, flags) && flags == PadFlag(m)
    requires Padded(m) == DecryptBlocks(w, n, Chains(options), c[16..], k)
    ensures Cleared(c) == Seal(w, n, options, c[16..32], m)
  {
    hide EncryptBlocks, DecryptBlocks, PadLength, Padded, Chains, MakeHeader;
    var body := c[16..];
    EncryptInvertsDecrypt(w, n, Chains(options), body, k, k);
    assert body[..16] == c[16..32] && body[16..16 * k + 16] == c[32..];
    assert body == c[16..32] + c[32..];
    assert |Padded(m)| / 16 == k;
  }

  function PadFlag(m: seq<bv8>): bv8 { if PadLength(|m|) > 0 then FLAG_PAD else 0 }

  lemma SameHeader(c: seq<bv8>, header: Block)
    requires |c| >= 32 && c[..4] == header[..4]
    requires c[4] == header[4] && c[5] == header[5] && c[6] == header[6] && c[7] == header[7] && c[8] == header[8]
    requires header[9..] == [0, 0, 0, 0, 0, 0, 0]
    ensures c[..9] + [0, 0, 0, 0, 0, 0, 0] == header
  {
    assert c[..9] == c[..4] + [c[4], c[5], c[6], c[7], c[8]];
    assert header == header[..4] + [header[4], header[5], header[6], header[7], header[8]] + header[9..];
  }

  lemma WholeBlocks(p: seq<bv8>)
    requires |p| % 16 == 0
    ensures PadLength(|p|) == 0 && Padded(p) == p
  {}
}
