/** Work for miners (CryptoNight/block.cpp, MoneroPool/StaticClasses.cs, MoneroPool/CryptoNightPool.cs):
    the hashing blob of a block, and the byte patches the pool makes inside serialised blocks. */
module BlockWork {
  import opened Bytes
  import opened Archive
  import opened Cryptonote
  import Varint
  import TreeHash

  /** cn_fast_hash, for any input; left arbitrary. */
  type FastHash = seq<Byte> -> Blob32

  /** The offset at which the pool writes the nonce. */
  const NONCE_OFFSET: nat := 39

  // ----- the hashing blob

  function PairHash(hash: FastHash): (Blob32, Blob32) -> Blob32 {
    (a: Blob32, b: Blob32) => hash(a + b)
  }

  function TreeRoot(b: Block, hash: FastHash): Blob32 {
    TreeHash.Root(PairHash(hash), [hash(PrintTransaction(b.minerTx))] + b.txHashes)
  }

  /** What follows the header in the hashing blob. */
  function HashingTail(b: Block, hash: FastHash): seq<Byte> {
    TreeRoot(b, hash) + Varint.Encode((|b.txHashes| + 1) % TWO_64)
  }

  function HashingBlob(b: Block, hash: FastHash): (blob: seq<Byte>)
    ensures |blob| == HashingLength(b)
  {
    PrintHeader(b.header) + HashingTail(b, hash)
  }

  function HashingLength(b: Block): nat {
    |PrintHeader(b.header)| + 32 + |Varint.Encode((|b.txHashes| + 1) % TWO_64)|
  }

  /** convert_block on a blob that parses; on any other the C++ function goes on with whatever
      the failed parse left behind, which is not modelled. */
  function Convert(blob: seq<Byte>, hash: FastHash): Option<seq<Byte>> {
    var (b, rest) :- ParseBlock(blob);
    if rest == [] then Some(HashingBlob(b, hash)) else None
  }

  lemma VarintLengths(h: Header)
    ensures |Varint.Encode(h.major)| <= 2 && |Varint.Encode(h.minor)| <= 2 && |Varint.Encode(h.timestamp)| <= 10
  {
    assert Pow2(8) == 256;
    Varint.EncodeLength(h.major, 8);
    Varint.EncodeLength(h.minor, 8);
    Pow2Of64();
    Varint.EncodeLength(h.timestamp, 64);
  }

  /** What the hashing blob commits to: after the header the Merkle root of the miner transaction's hash and the
      other hashes, in their order, and then how many they are. */
  lemma HashingBlobCommits(b: Block, hash: FastHash, pair: (Blob32, Blob32) -> Blob32, leaves: seq<Blob32>)
    requires forall x: Blob32, y: Blob32 :: pair(x, y) == hash(x + y)
    requires |leaves| == |b.txHashes| + 1 && leaves[0] == hash(PrintTransaction(b.minerTx))
    requires forall i :: 0 <= i < |b.txHashes| ==> leaves[i + 1] == b.txHashes[i]
    ensures var blob, k := HashingBlob(b, hash), |PrintHeader(b.header)|;
            && |blob| > k + 32 && blob[..k] == PrintHeader(b.header)
            && (TreeHash.Gapless(|b.txHashes|) ==> blob[k..k + 32] == TreeHash.MerkleRoot(pair, leaves))
            && Varint.Read(blob[k + 32..], 0, 64) == Varint.Reading(Varint.Done, |blob| - k - 32, |leaves| % TWO_64)
  {
    hide PrintTransaction, PrintHeader, TreeHash.Root, TreeHash.MerkleRoot, Varint.Encode, Varint.Read,
         TreeHash.Gapless;
    assert leaves == [hash(PrintTransaction(b.minerTx))] + b.txHashes;
    var blob, h, root := HashingBlob(b, hash), PrintHeader(b.header), TreeRoot(b, hash);
    var count := Varint.Encode(|leaves| % TWO_64);
    assert blob == h + (root + count);
    assert blob[|h|..|h| + 32] == root && blob[|h| + 32..] == count;
    if TreeHash.Gapless(|b.txHashes|) {
      TreeHash.RootIsMerkleRoot(PairHash(hash), leaves);
      TreeHash.SameMerkleRoot(PairHash(hash), pair, leaves);
    }
    Pow2Of64();
    Varint.ReadInvertsEncode(|leaves| % TWO_64, [], 64);
    assert count + [] == count;
  }

  /** The 128-byte buffer the pool passes is always large enough. */
  lemma HashingBlobFits(b: Block, hash: FastHash)
    ensures |HashingBlob(b, hash)| <= 92 <= 128
  {
    VarintLengths(b.header);
    Pow2Of64();
    Varint.EncodeLength((|b.txHashes| + 1) % TWO_64, 64);
  }

  // ----- patching

  /** Array.Copy(bytes, 0, s, at, bytes.Length) */
  function Patch(s: seq<Byte>, at: nat, bytes: seq<Byte>): (r: seq<Byte>)
    requires at + |bytes| <= |s|
    ensures |r| == |s|
  {
    s[..at] + bytes + s[at + |bytes|..]
  }

  lemma PatchAfter(a: seq<Byte>, s: seq<Byte>, at: nat, bytes: seq<Byte>)
    requires at + |bytes| <= |s|
    ensures Patch(a + s, |a| + at, bytes) == a + Patch(s, at, bytes)
  {}

  lemma PatchBefore(s: seq<Byte>, z: seq<Byte>, at: nat, bytes: seq<Byte>)
    requires at + |bytes| <= |s|
    ensures Patch(s + z, at, bytes) == Patch(s, at, bytes) + z
  {}

  lemma PatchWhole(a: seq<Byte>, old_: seq<Byte>, z: seq<Byte>, bytes: seq<Byte>)
    requires |bytes| == |old_|
    ensures Patch(a + (old_ + z), |a|, bytes) == a + (bytes + z)
  {}

  // ----- the nonce

  function BeforeNonce(h: Header): seq<Byte> {
    Varint.Encode(h.major) + (Varint.Encode(h.minor) + (Varint.Encode(h.timestamp) + h.prevId))
  }

  /** The nonce of the header begins at offset 39. */
  predicate NonceAt39(h: Header) {
    |Varint.Encode(h.major)| + |Varint.Encode(h.minor)| + |Varint.Encode(h.timestamp)| == 7
  }

  function WithNonce(b: Block, nonce: seq<Byte>): Block
    requires |nonce| == 4
  {
    Pow2Of32(); UintOfBound(nonce);
    b.(header := b.header.(nonce := UintOf(nonce)))
  }

  lemma HeaderSplits(h: Header)
    ensures PrintHeader(h) == BeforeNonce(h) + PrintUint(h.nonce, 4)
  {
    hide Varint.Encode, PrintUint;
    var a, b, c, d, e := Varint.Encode(h.major), Varint.Encode(h.minor), Varint.Encode(h.timestamp), h.prevId,
                         PrintUint(h.nonce, 4);
    Cat3(a, b + (c + d), e);
    Cat3(b, c + d, e);
    Cat3(c, d, e);
  }

  /** With one-byte versions, the nonce is at 39 exactly for timestamps of five-byte varints:
      1978-07-04 to 3058-10-26. */
  lemma NonceAt39Iff(h: Header)
    requires h.major < 128 && h.minor < 128
    ensures NonceAt39(h) <==> 0x1000_0000 <= h.timestamp < 0x8_0000_0000
  {
    var t := h.timestamp;
    FiveBytes(t);
  }

  lemma FiveBytes(t: nat)
    ensures |Varint.Encode(t)| == 5 <==> 0x1000_0000 <= t < 0x8_0000_0000
  {
    var a := t / 128;
    var b := a / 128;
    var c := b / 128;
    var d := c / 128;
    LongerThanOne(t); LongerThanOne(a); LongerThanOne(b); LongerThanOne(c); LongerThanOne(d);
  }

  lemma LongerThanOne(v: nat)
    ensures |Varint.Encode(v)| == if v < 128 then 1 else 1 + |Varint.Encode(v / 128)|
  {}

  lemma HeaderPatch(h: Header, nonce: seq<Byte>, tail: seq<Byte>)
    requires |nonce| == 4 && NonceAt39(h)
    ensures UintOf(nonce) < TWO_32
    ensures Patch(PrintHeader(h) + tail, NONCE_OFFSET, nonce) == PrintHeader(h.(nonce := UintOf(nonce))) + tail
  {
    hide Varint.Encode, PrintUint;
    Pow2Of32(); UintOfBound(nonce);
    var h' := h.(nonce := UintOf(nonce));
    HeaderSplits(h);
    HeaderSplits(h');
    PrintUintInverse(nonce);
    assert |BeforeNonce(h)| == 39 && BeforeNonce(h') == BeforeNonce(h);
    Cat3(BeforeNonce(h), PrintUint(h.nonce, 4), tail);
    Cat3(BeforeNonce(h), nonce, tail);
    PatchWhole(BeforeNonce(h), PrintUint(h.nonce, 4), tail, nonce);
  }

  lemma BlockLongEnough(b: Block)
    ensures |PrintBlock(b)| >= 43
  {
    HeaderSplits(b.header);
    assert |PrintPrefix(b.minerTx.prefix)| >= 5 by { PrefixLength(b.minerTx.prefix); }
  }

  lemma PrefixLength(p: Prefix)
    ensures |PrintPrefix(p)| >= 5
  {
    hide PrintAll;
  }

  /** Writing a nonce at 39 in the serialised block is setting its nonce field. */
  lemma PatchSetsNonce(b: Block, nonce: seq<Byte>)
    requires |nonce| == 4 && NonceAt39(b.header)
    ensures |PrintBlock(b)| >= 43 && Patch(PrintBlock(b), NONCE_OFFSET, nonce) == PrintBlock(WithNonce(b, nonce))
  {
    BlockLongEnough(b);
    HeaderPatch(b.header, nonce, PrintTransaction(b.minerTx) + PrintVec(PrintBlob32, b.txHashes));
  }

  /** And only then: if the nonce is elsewhere, some nonce is not set by the patch. */
  lemma PatchSetsNonceIff(b: Block)
    ensures |PrintBlock(b)| >= 43
    ensures NonceAt39(b.header) <==>
            forall nonce: seq<Byte> | |nonce| == 4 ::
              Patch(PrintBlock(b), NONCE_OFFSET, nonce) == PrintBlock(WithNonce(b, nonce))
  {
    BlockLongEnough(b);
    if NonceAt39(b.header) {
      forall nonce: seq<Byte> | |nonce| == 4
        ensures Patch(PrintBlock(b), NONCE_OFFSET, nonce) == PrintBlock(WithNonce(b, nonce))
      {
        PatchSetsNonce(b, nonce);
      }
    } else {
      var nonce := WrongNonce(b);
      assert |nonce| == 4;
    }
  }

  function NextByte(b: Byte): Byte { if b == 255 then 0 else b + 1 }

  lemma WrongNonce(b: Block) returns (nonce: seq<Byte>)
    requires !NonceAt39(b.header)
    ensures |PrintBlock(b)| >= 43 && |nonce| == 4
    ensures Patch(PrintBlock(b), NONCE_OFFSET, nonce) != PrintBlock(WithNonce(b, nonce))
  {
    BlockLongEnough(b);
    hide Varint.Encode, PrintUint, PrintTransaction, PrintVec;
    var k, was := |BeforeNonce(b.header)|, PrintUint(b.header.nonce, 4);
    nonce := [NextByte(was[0]), NextByte(was[1]), NextByte(was[2]), NextByte(was[3])];
    PrintUintInverse(nonce);
    var b' := WithNonce(b, nonce);
    HeaderSplits(b.header);
    HeaderSplits(b'.header);
    assert k != 39;
    var p, q := PrintBlock(b), PrintBlock(b');
    assert forall i :: 0 <= i < 4 ==> p[k + i] == was[i] && q[k + i] == nonce[i] && was[i] != nonce[i];
    var i := if k < 39 then 0 else 3;
    assert Patch(p, NONCE_OFFSET, nonce)[k + i] == p[k + i];
  }

  lemma LoadedHashesAlike(b: Block, hash: FastHash)
    requires Savable(b.minerTx)
    ensures HashingBlob(b.(minerTx := Loaded(b.minerTx)), hash) == HashingBlob(b, hash)
  {
    hide PrintTransaction, Varint.Encode, PrintHeader, Loaded, Savable, TreeHash.Root;
    LoadedPrintsAlike(b.minerTx);
  }

  lemma ConvertOfPrinted(b: Block, hash: FastHash)
    requires Savable(b.minerTx)
    ensures Convert(PrintBlock(b), hash) == Some(HashingBlob(b, hash))
  {
    hide PrintBlock, ParseBlock, Loaded, HashingBlob;
    BlockRoundTrip(b, []);
    assert PrintBlock(b) + [] == PrintBlock(b);
    LoadedHashesAlike(b, hash);
  }

  // ----- patching and converting

  function FrontOf(h: Header): seq<Byte> {
    Varint.Encode(h.major) + (Varint.Encode(h.minor) + Varint.Encode(h.timestamp))
  }

  /** The previous hash and the nonce, which are always 36 bytes. */
  function BackOf(h: Header): (s: seq<Byte>)
    ensures |s| == 36
  {
    h.prevId + PrintUint(h.nonce, 4)
  }

  lemma FrontAndBack(h: Header)
    ensures PrintHeader(h) == FrontOf(h) + BackOf(h) && 3 <= |FrontOf(h)| <= 14
  {
    VarintLengths(h);
    hide Varint.Encode, PrintUint;
    var a, b, c, d := Varint.Encode(h.major), Varint.Encode(h.minor), Varint.Encode(h.timestamp), BackOf(h);
    Cat3(b, c, d);
    Cat3(a, b + c, d);
  }

  /** The header with bytes from offset 39 on replaced, as long as they are its own: they are then
      bytes of the previous hash and of the nonce. */
  function PatchedHeader(h: Header, bytes: seq<Byte>): Header
    requires NONCE_OFFSET + |bytes| <= |PrintHeader(h)|
  {
    FrontAndBack(h);
    var s := Patch(BackOf(h), NONCE_OFFSET - |FrontOf(h)|, bytes);
    Pow2Of32(); UintOfBound(s[32..]);
    h.(prevId := s[..32], nonce := UintOf(s[32..]))
  }

  lemma PatchInHeader(h: Header, bytes: seq<Byte>)
    requires NONCE_OFFSET + |bytes| <= |PrintHeader(h)|
    ensures Patch(PrintHeader(h), NONCE_OFFSET, bytes) == PrintHeader(PatchedHeader(h, bytes))
  {
    hide PrintUint, UintOf, Patch;
    FrontAndBack(h);
    var at := NONCE_OFFSET - |FrontOf(h)|;
    var s := Patch(BackOf(h), at, bytes);
    PrintUintInverse(s[32..]);
    FrontAndBack(PatchedHeader(h, bytes));
    PatchAfter(FrontOf(h), BackOf(h), at, bytes);
    assert s == s[..32] + s[32..];
  }

  /** A nonce of `n` bytes is inside the serialised block and inside its hashing blob. */
  predicate Fits(b: Block, n: nat) {
    NONCE_OFFSET + n <= |PrintBlock(b)| && NONCE_OFFSET + n <= HashingLength(b)
  }

  /** The block that is submitted converts to the blob whose hash was checked. */
  predicate Commutes(b: Block, nonce: seq<Byte>, hash: FastHash)
    requires Fits(b, |nonce|)
  {
    Convert(Patch(PrintBlock(b), NONCE_OFFSET, nonce), hash) == Some(Patch(HashingBlob(b, hash), NONCE_OFFSET, nonce))
  }

  lemma InHeaderFits(b: Block, n: nat)
    requires NONCE_OFFSET + n <= |PrintHeader(b.header)|
    ensures Fits(b, n)
  {}

  /** A nonce that ends inside the header, wherever the header's own nonce is. */
  lemma PatchCommutesWithConvert(b: Block, nonce: seq<Byte>, hash: FastHash)
    requires Savable(b.minerTx) && NONCE_OFFSET + |nonce| <= |PrintHeader(b.header)|
    ensures Fits(b, |nonce|) && Commutes(b, nonce, hash)
    ensures Convert(PrintBlock(b), hash) == Some(HashingBlob(b, hash))
  {
    hide ParseBlock, PrintTransaction, HashingTail, PrintHeader, PatchedHeader, Patch, PrintVec, Savable;
    InHeaderFits(b, |nonce|);
    var b' := b.(header := PatchedHeader(b.header, nonce));
    PatchInHeader(b.header, nonce);
    PatchBefore(PrintHeader(b.header), PrintTransaction(b.minerTx) + PrintVec(PrintBlob32, b.txHashes), NONCE_OFFSET,
                nonce);
    PatchBefore(PrintHeader(b.header), HashingTail(b, hash), NONCE_OFFSET, nonce);
    ConvertOfPrinted(b, hash);
    ConvertOfPrinted(b', hash);
    SameTail(b, b'.header, hash);
  }

  function ConstantHash(c: Blob32): FastHash { _ => c }

  lemma RootUnderConstant(b: Block, c: Blob32)
    ensures TreeRoot(b, ConstantHash(c)) == c
  {
    hide PrintTransaction, TreeHash.Root;
    TreeHash.RootOfConstant(PairHash(ConstantHash(c)), [c] + b.txHashes, c);
  }

  /** What the conversion of a patched block has in the first byte after its header. */
  lemma ByteAfterHeader(b: Block, nonce: seq<Byte>, c: Blob32)
    requires Fits(b, |nonce|) && NONCE_OFFSET + |nonce| > |PrintHeader(b.header)|
    ensures var blob := Convert(Patch(PrintBlock(b), NONCE_OFFSET, nonce), ConstantHash(c));
            blob.Some? ==> |blob.value| > |PrintHeader(b.header)| && blob.value[|PrintHeader(b.header)|] == c[0]
  {
    hide ParseHeader, PrintTransaction, PrintHeader, PatchedHeader, PrintVec, ParseVec, ParseTransaction, TreeRoot,
         Varint.Encode;
    FrontAndBack(b.header);
    var k := |PrintHeader(b.header)|;
    var inside := nonce[..k - NONCE_OFFSET];
    var r, h := Patch(PrintBlock(b), NONCE_OFFSET, nonce), PatchedHeader(b.header, inside);
    PatchInHeader(b.header, inside);
    assert r[..k] == PrintHeader(h);
    assert r == PrintHeader(h) + r[k..];
    HeaderRoundTrip(h, r[k..]);
    if Convert(r, ConstantHash(c)).Some? {
      RootUnderConstant(ParseBlock(r).value.0, c);
    }
  }

  /** A nonce that runs over the header into the tree root: for some hash the two blobs part. */
  lemma OverrunParts(b: Block, nonce: seq<Byte>, c: Blob32)
    requires Fits(b, |nonce|) && NONCE_OFFSET + |nonce| > |PrintHeader(b.header)| >= NONCE_OFFSET
    requires nonce[|PrintHeader(b.header)| - NONCE_OFFSET] != c[0]
    ensures !Commutes(b, nonce, ConstantHash(c))
  {
    hide Convert, PrintHeader, HashingBlob, PrintBlock;
    ByteAfterHeader(b, nonce, c);
    var k := |PrintHeader(b.header)|;
    assert Patch(HashingBlob(b, ConstantHash(c)), NONCE_OFFSET, nonce)[k] == nonce[k - NONCE_OFFSET];
  }

  ghost predicate AlwaysCommutes(b: Block, n: nat)
    requires Fits(b, n)
  {
    forall nonce: seq<Byte>, hash: FastHash | |nonce| == n :: Commutes(b, nonce, hash)
  }

  /** Patching and converting commute exactly when the nonce ends inside the header. The pool takes the
      nonce from the miner and only refuses fewer than four bytes: where it expects the nonce, four
      bytes are right and every longer nonce can go wrong. */
  lemma PatchCommutesIff(b: Block, n: nat)
    requires Savable(b.minerTx) && Fits(b, n)
    ensures AlwaysCommutes(b, n) <==> NONCE_OFFSET + n <= |PrintHeader(b.header)|
    ensures NonceAt39(b.header) && n >= 4 ==> (AlwaysCommutes(b, n) <==> n == 4)
    ensures n == 4 ==> (AlwaysCommutes(b, n) <==> |BeforeNonce(b.header)| >= 39)
  {
    hide Savable, Commutes, PrintHeader, Fits, BeforeNonce;
    FrontAndBack(b.header);
    HeaderSplits(b.header);
    NonceAt39Length(b.header);
    if NONCE_OFFSET + n <= |PrintHeader(b.header)| {
      forall nonce: seq<Byte>, hash: FastHash | |nonce| == n ensures Commutes(b, nonce, hash) {
        PatchCommutesWithConvert(b, nonce, hash);
      }
    } else {
      var nonce, c := seq(n, _ => 1), Zeros(32);
      OverrunParts(b, nonce, c);
      assert !Commutes(b, nonce, ConstantHash(c));
    }
  }

  lemma NonceAt39Length(h: Header)
    ensures NonceAt39(h) <==> |BeforeNonce(h)| == 39
  {}

  /** Five bytes, four zeros and a two, on a block with one transaction, its nonce at offset 39. */
  lemma FiveBytesPart() returns (b: Block, nonce: seq<Byte>)
    ensures b == Block(Header(1, 0, 0x1000_0000, Zeros(32), 0), Transaction(Prefix(1, 0, [], [], []), []), [])
    ensures nonce == [0, 0, 0, 0, 2]
    ensures Savable(b.minerTx) && NonceAt39(b.header) && Fits(b, 5)
    ensures !Commutes(b, nonce, ConstantHash(Zeros(32)))
  {
    b := Block(Header(1, 0, 0x1000_0000, Zeros(32), 0), Transaction(Prefix(1, 0, [], [], []), []), []);
    nonce := [0, 0, 0, 0, 2];
    NonceAt39Iff(b.header);
    FiveBytesFit(b);
    hide Fits, Commutes, PrintHeader;
    HeaderSplits(b.header);
    NonceAt39Length(b.header);
    OverrunParts(b, nonce, Zeros(32));
  }

  lemma FiveBytesFit(b: Block)
    requires NonceAt39(b.header)
    ensures Fits(b, 5)
  {
    hide PrintHeader, PrintPrefix, PrintUint, Varint.Encode;
    HeaderSplits(b.header);
    PrefixLength(b.minerTx.prefix);
    NonceAt39Length(b.header);
  }

  lemma SameTail(b: Block, h: Header, hash: FastHash)
    ensures HashingTail(b.(header := h), hash) == HashingTail(b, hash)
  {}

  // ----- the reserved bytes

  function BeforeExtra(b: Block): seq<Byte> {
    var p := b.minerTx.prefix;
    PrintHeader(b.header) + (Varint.Encode(p.version) + (Varint.Encode(p.unlockTime) +
    (PrintVec(PrintTxIn, p.vin) + (PrintVec(PrintTxOut, p.vout) + Varint.Encode(|p.extra|)))))
  }

  function AfterExtra(b: Block): seq<Byte> {
    PrintSignatures(b.minerTx.signatures) + PrintVec(PrintBlob32, b.txHashes)
  }

  /** The four reserved bytes lie inside the extra field of the miner transaction. */
  predicate Reserved(b: Block, offset: nat) {
    |BeforeExtra(b)| <= offset && offset + 4 <= |BeforeExtra(b)| + |b.minerTx.prefix.extra|
  }

  function WithExtra(b: Block, extra: Vec<Byte>): Block {
    b.(minerTx := b.minerTx.(prefix := b.minerTx.prefix.(extra := extra)))
  }

  lemma {:induction false} BytesPrintThemselves(v: seq<Byte>)
    ensures PrintAll(PrintByte, v) == v
  {
    if v != [] {
      BytesPrintThemselves(v[1..]);
    }
  }

  lemma BlockSplitsAtExtra(b: Block)
    ensures PrintBlock(b) == BeforeExtra(b) + (b.minerTx.prefix.extra + AfterExtra(b))
  {
    var p := b.minerTx.prefix;
    BytesPrintThemselves(p.extra);
    hide Varint.Encode, PrintVec, PrintSignatures, PrintHeader, PrintAll;
    ExtraLast(p);
    Regroup(PrintHeader(b.header), Varint.Encode(p.version), Varint.Encode(p.unlockTime), PrintVec(PrintTxIn, p.vin),
            PrintVec(PrintTxOut, p.vout), Varint.Encode(|p.extra|), p.extra,
            PrintSignatures(b.minerTx.signatures), PrintVec(PrintBlob32, b.txHashes));
  }

  lemma ExtraLast(p: Prefix)
    ensures PrintVec(PrintByte, p.extra) == Varint.Encode(|p.extra|) + p.extra
  {
    BytesPrintThemselves(p.extra);
  }

  lemma Regroup(h: seq<Byte>, a: seq<Byte>, b: seq<Byte>, c: seq<Byte>, d: seq<Byte>, n: seq<Byte>, e: seq<Byte>,
                s: seq<Byte>, t: seq<Byte>)
    ensures h + (((a + (b + (c + (d + (n + e))))) + s) + t) == (h + (a + (b + (c + (d + n))))) + (e + (s + t))
  {
    var l := a + (b + (c + (d + n)));
    assert a + (b + (c + (d + (n + e)))) == l + e by {
      Cat3(d, n, e);
      Cat3(c, d + n, e);
      Cat3(b, c + (d + n), e);
      Cat3(a, b + (c + (d + n)), e);
    }
    Cat3(l + e, s, t);
    Cat3(l, e, s + t);
    Cat3(h, l, e + (s + t));
  }

  /** Writing the seed over reserved bytes is changing the extra field, and nothing else. */
  lemma PatchSetsExtra(b: Block, offset: nat, seed: seq<Byte>)
    requires |seed| == 4 && Reserved(b, offset)
    ensures offset + 4 <= |PrintBlock(b)|
    ensures Patch(PrintBlock(b), offset, seed)
         == PrintBlock(WithExtra(b, Patch(b.minerTx.prefix.extra, offset - |BeforeExtra(b)|, seed)))
  {
    hide PrintBlock, BeforeExtra, AfterExtra, Patch;
    var extra, at := b.minerTx.prefix.extra, offset - |BeforeExtra(b)|;
    var b' := WithExtra(b, Patch(extra, at, seed));
    BlockSplitsAtExtra(b);
    BlockSplitsAtExtra(b');
    PatchBefore(extra, AfterExtra(b), at, seed);
    PatchAfter(BeforeExtra(b), extra + AfterExtra(b), at, seed);
    SameAround(b, b'.minerTx.prefix.extra);
  }

  lemma SameAround(b: Block, extra: Vec<Byte>)
    requires |extra| == |b.minerTx.prefix.extra|
    ensures BeforeExtra(WithExtra(b, extra)) == BeforeExtra(b) && AfterExtra(WithExtra(b, extra)) == AfterExtra(b)
  {}

  // ----- the pool's side

  type I32 = x: int | -0x8000_0000 <= x < 0x8000_0000

  /** BitConverter.GetBytes on a 32-bit int, little-endian two's complement. */
  function SeedBytes(seed: I32): (s: seq<Byte>)
    ensures |s| == 4
  {
    PrintUint(seed % TWO_32, 4)
  }

  lemma SeedBytesInjective(s: I32, t: I32)
    ensures SeedBytes(s) == SeedBytes(t) <==> s == t
  {
    Pow2Of32();
    hide Pow2, PrintUint, UintOf;
    UintOfPrint(s % TWO_32, 4);
    UintOfPrint(t % TWO_32, 4);
  }

  /** Lowest byte first, negative seeds in two's complement. */
  lemma SeedVectors()
    ensures SeedBytes(0x0a0b_0c0d) == [0x0d, 0x0c, 0x0b, 0x0a] && SeedBytes(-2) == [0xfe, 0xff, 0xff, 0xff]
  {
    assert -2 % TWO_32 == 0xffff_fffe;
    assert PrintUint(0xffff, 2) == [0xff, 0xff];
    assert PrintUint(0xffff_fffe, 4) == [0xfe, 0xff] + PrintUint(0xffff, 2);
  }

  function Increment(seed: I32): I32 {
    if seed == 0x7fff_ffff then -0x8000_0000 else seed + 1
  }

  /** The seed `n` jobs later. */
  function Later(seed: I32, n: nat): I32 {
    if n == 0 then seed else Increment(Later(seed, n - 1))
  }

  lemma {:induction false} LaterIs(seed: I32, n: nat)
    ensures (Later(seed, n) - seed - n) % TWO_32 == 0
  {
    if n > 0 {
      LaterIs(seed, n - 1);
      var was := Later(seed, n - 1);
      assert Increment(was) - seed - n == was - seed - (n - 1) ||
             Increment(was) - seed - n == was - seed - (n - 1) - TWO_32;
    }
  }

  /** The first 2^32 jobs all have different seeds, and so different bytes; then the seeds come again. */
  lemma SeedsDiffer(seed: I32, m: nat, n: nat)
    ensures Later(seed, m) == Later(seed, n) <==> (m - n) % TWO_32 == 0
    ensures SeedBytes(Later(seed, m)) == SeedBytes(Later(seed, n)) <==> (m - n) % TWO_32 == 0
  {
    LaterIs(seed, m);
    LaterIs(seed, n);
    SeedBytesInjective(Later(seed, m), Later(seed, n));
    SameResidue(Later(seed, m), Later(seed, n), seed, m, n);
  }

  lemma SameResidue(a: I32, b: I32, seed: I32, m: nat, n: nat)
    requires (a - seed - m) % TWO_32 == 0 && (b - seed - n) % TWO_32 == 0
    ensures a == b <==> (m - n) % TWO_32 == 0
  {}

  /** Statics: the current block template and the counter that makes every job's work different. */
  class WorkSource {
    var template: seq<Byte>
    var reservedOffset: nat
    var reserveSeed: I32
    const hash: FastHash

    constructor (template: seq<Byte>, reservedOffset: nat, hash: FastHash)
      ensures this.template == template && this.reservedOffset == reservedOffset && this.hash == hash
              && reserveSeed == 0
    {
      this.template, this.reservedOffset, this.hash, reserveSeed := template, reservedOffset, hash, 0;
    }

    /** The template carries a savable block and the reserved bytes are in its extra field. */
    ghost predicate Carries(b: Block)
      reads this
    {
      template == PrintBlock(b) && Savable(b.minerTx) && Reserved(b, reservedOffset)
    }

    /** The block a seed stands for. */
    ghost function Seeded(b: Block, seed: I32): Block
      reads this
      requires Carries(b)
    {
      WithExtra(b, Patch(b.minerTx.prefix.extra, reservedOffset - |BeforeExtra(b)|, SeedBytes(seed)))
    }

    /** Helpers.GetConvertedBlob: convert_block into a 128-byte buffer, cut to the returned length. */
    method GetConvertedBlob(blob: seq<Byte>, ghost b: Block) returns (converted: seq<Byte>)
      requires ParseBlock(blob) == Some((b, []))
      ensures converted == HashingBlob(b, hash)
    {
      hide ParseBlock, HashingBlob;
      var ok, parsed := ParseBlob(blob);
      var out := GetBlockHashingBlob(parsed.value);
      HashingBlobFits(b, hash);
      converted := ThroughBuffer(out);
    }

    method ThroughBuffer(out: seq<Byte>) returns (taken: seq<Byte>)
      requires |out| <= 128
      ensures taken == out
    {
      var buffer := new Byte[128](_ => 0);
      var i := 0;
      while i < |out|
        invariant i <= |out| && buffer[..i] == out[..i]
      {
        buffer[i] := out[i];
        i := i + 1;
      }
      taken := buffer[..|out|];
    }

    /** get_block_hashing_blob: header, tree root over the miner transaction and the other hashes, count. */
    method GetBlockHashingBlob(b: Block) returns (blob: seq<Byte>)
      ensures blob == HashingBlob(b, hash)
    {
      var txsIds := [hash(PrintTransaction(b.minerTx))];
      var i := 0;
      while i < |b.txHashes|
        invariant i <= |b.txHashes|
        invariant txsIds == [hash(PrintTransaction(b.minerTx))] + b.txHashes[..i]
      {
        txsIds := txsIds + [b.txHashes[i]];
        i := i + 1;
      }
      assert b.txHashes[..i] == b.txHashes;
      var root := TreeHash.TreeHashOf(PairHash(hash), txsIds);
      var count := Varint.WriteVarint((|b.txHashes| + 1) % TWO_64);
      var header := new Writer();
      SaveHeader(header, b.header);
      blob := header.out;
      assert [] + PrintHeader(b.header) == PrintHeader(b.header);
      Cat3(blob, root, count);
      blob := blob + root;
      blob := blob + count;
    }

    /** Helpers.GenerateShareWork with convert false: the raw block for a seed. */
    method GenerateRawWork(seed: I32, ghost b: Block) returns (work: seq<Byte>)
      requires Carries(b)
      ensures work == PrintBlock(Seeded(b, seed))
      ensures Seeded(b, seed).header == b.header && Savable(Seeded(b, seed).minerTx)
    {
      PatchSetsExtra(b, reservedOffset, SeedBytes(seed));
      work := Patch(template, reservedOffset, SeedBytes(seed));
    }

    /** Helpers.GenerateShareWork with convert true: the hashing blob for a seed. */
    method GenerateConvertedWork(seed: I32, ghost b: Block) returns (work: seq<Byte>)
      requires Carries(b)
      ensures work == HashingBlob(Seeded(b, seed), hash)
    {
      work := GenerateRawWork(seed, b);
      hide PrintBlock, ParseBlock, Loaded, HashingBlob;
      ghost var s := Seeded(b, seed);
      BlockRoundTrip(s, []);
      assert work + [] == work;
      LoadedHashesAlike(s, hash);
      work := GetConvertedBlob(work, s.(minerTx := Loaded(s.minerTx)));
    }

    /** Helpers.GenerateUniqueWork: takes the next seed. */
    method GenerateUniqueWork(ghost b: Block) returns (seed: I32, work: seq<Byte>)
      requires Carries(b)
      modifies this`reserveSeed
      ensures seed == old(reserveSeed) && reserveSeed == Increment(seed)
      ensures work == HashingBlob(Seeded(b, seed), hash)
    {
      seed := reserveSeed;
      reserveSeed := Increment(reserveSeed);
      work := GenerateConvertedWork(seed, b);
    }

    /** The two uses GenerateSubmitResponse makes of the miner's nonce: the blob it hashes to check the
        share and the block it queues for submission. An empty nonce is refused, BitConverter refuses
        fewer than four bytes, and a copy that does not fit throws. The queued block converts to the
        blob that was checked if the nonce ends inside the header. */
    method ShareAndSubmission(seed: I32, nonce: seq<Byte>, ghost b: Block)
      returns (checked: Option<seq<Byte>>, submitted: Option<seq<Byte>>)
      requires Carries(b)
      ensures var s := Seeded(b, seed);
        && checked == (if |nonce| >= 4 && NONCE_OFFSET + |nonce| <= HashingLength(s)
                       then Some(Patch(HashingBlob(s, hash), NONCE_OFFSET, nonce)) else None)
        && submitted == (if checked.Some? && NONCE_OFFSET + |nonce| <= |PrintBlock(s)|
                         then Some(Patch(PrintBlock(s), NONCE_OFFSET, nonce)) else None)
        && (|nonce| >= 4 && NONCE_OFFSET + |nonce| <= |PrintHeader(b.header)| ==>
              submitted.Some? && Convert(submitted.value, hash) == checked)
        && (|nonce| == 4 && NonceAt39(b.header) ==>
              submitted == Some(PrintBlock(WithNonce(s, nonce))) && Convert(submitted.value, hash) == checked)
    {
      hide PrintBlock, Convert, HashingBlob, Patch, PrintHeader, Fits;
      ghost var s := Seeded(b, seed);
      if |nonce| < 4 {
        return None, None;
      }
      var prevJobBlock := GenerateConvertedWork(seed, b);
      NonceInHeader(s, nonce, hash);
      if NONCE_OFFSET + |nonce| > |prevJobBlock| {
        return None, None;
      }
      checked := Some(Patch(prevJobBlock, NONCE_OFFSET, nonce));
      var shareWork := GenerateRawWork(seed, b);
      if NONCE_OFFSET + |nonce| > |shareWork| {
        return checked, None;
      }
      submitted := Some(Patch(shareWork, NONCE_OFFSET, nonce));
    }
  }

  lemma NonceInHeader(b: Block, nonce: seq<Byte>, hash: FastHash)
    requires Savable(b.minerTx)
    ensures NONCE_OFFSET + |nonce| <= |PrintHeader(b.header)| ==>
              && NONCE_OFFSET + |nonce| <= HashingLength(b) && NONCE_OFFSET + |nonce| <= |PrintBlock(b)|
              && Convert(Patch(PrintBlock(b), NONCE_OFFSET, nonce), hash)
                 == Some(Patch(HashingBlob(b, hash), NONCE_OFFSET, nonce))
    ensures |nonce| == 4 && NonceAt39(b.header) ==>
              && NONCE_OFFSET + |nonce| <= |PrintHeader(b.header)|
              && Patch(PrintBlock(b), NONCE_OFFSET, nonce) == PrintBlock(WithNonce(b, nonce))
  {
    hide PrintBlock, Convert, HashingBlob, Patch, PrintHeader, PrintUint, Varint.Encode;
    if NONCE_OFFSET + |nonce| <= |PrintHeader(b.header)| {
      PatchCommutesWithConvert(b, nonce, hash);
    }
    if |nonce| == 4 && NonceAt39(b.header) {
      HeaderSplits(b.header);
      PatchSetsNonce(b, nonce);
    }
  }

  /** Different seeds, different blocks. */
  lemma SeedsGiveDifferentBlocks(b: Block, offset: nat, s: I32, t: I32)
    requires Reserved(b, offset) && s != t
    ensures offset + 4 <= |PrintBlock(b)|
            && Patch(PrintBlock(b), offset, SeedBytes(s)) != Patch(PrintBlock(b), offset, SeedBytes(t))
  {
    BlockSplitsAtExtra(b);
    SeedBytesInjective(s, t);
    var p := PrintBlock(b);
    assert Patch(p, offset, SeedBytes(s))[offset..offset + 4] == SeedBytes(s);
    assert Patch(p, offset, SeedBytes(t))[offset..offset + 4] == SeedBytes(t);
  }
}
