# A verified model of a CryptoNight mining pool

A CryptoNight mining pool hands out work, checks and credits shares, submits blocks and pays miners. This Dafny
project models the parts of it in which a mistake would be hard to see, in the form the source gives them
(objects with fields, loops over buffers, in-place permutations), and proves what they are for.

* **Wire format and work** (`Varint`, `Archive`, `Cryptonote`, `WireVectors`, `BlockWork`, `TreeHash`): blocks and
  transactions are parsed back from what is printed, whatever follows; patching bytes of a serialised block is the same
  as changing its nonce or its extra field, and commutes with the conversion to the hashed form as long as it stays in the header;
  the in-place Merkle hash is the recursive one, and the hashed form commits to every transaction through it. A
  block spelled out byte by byte fixes the format.
* **Addresses** (`IntUtil`, `Positional`, `Base58`, `Address`): Base58 in blocks of unequal radix is a bijection onto the
  strings that are accepted, with overflow detected in 64-bit words.
* **Ciphers and hashes** (`OaesTables`, `OaesBlock`, `OaesVector`, `Oaes`, `OaesModes`, `OaesConverse`, `OaesContext`,
  `Blake256`, `Keccak`, `Skein1024`, `Skein512`, `Groestl`, `HashCases`): AES decryption undoes encryption and the other way
  round, blocks and whole messages; the streaming hashes are their definitions over padded messages; in-place
  permutations and sliding windows are the simultaneous ones. Short messages and the example key of the standard,
  with every constant written out, fix the definitions.
* **Chunked transfer coding** (`ChunkFormat`, `ChunkStream`): the incremental reader is, on every input, a reader that takes
  one byte at a time, and gives back what any sender sent, however it is cut up: this library's printer or another
  one with upper-case sizes, extensions and a trailer.
* **Ledger, payments, listener** (`Ledger`, `Payments`, `PaymentRuns`, `Owed`, `PaymentOrder`, `ListenerQueues`): crediting
  keeps the ledger consistent and a share goes to its worker's miner; a payment pass books for every miner what is due
  from the rewards of the confirmed blocks, and all of it adds up to them; over every run in which accepted blocks get
  higher each share is paid for once, and over every run at all as often as the last paid block passes its height; no
  request is lost or delivered twice, and callers are served in their order.

Where the code does not do what one would expect, the model follows the code, and the exact condition is proved:

* `TreeHash`: the loop that smears the top bit of the count stops too early. The width it gives is the power of two that
  the algorithm needs if and only if no gap between the set bits is too long; 514 is the first count for which it is not.
  For every count with such a gap there is a transaction that the root does not depend on.
* `BlockWork`: patching at offset 39 sets the nonce if and only if the two versions and the timestamp take seven bytes together;
  with one-byte versions, if and only if the timestamp takes five. The length of a miner's nonce is not checked from four
  bytes on: the blob whose share is checked belongs to the block that is submitted, for all nonces of a length, if and
  only if the nonce ends inside the header. Where the nonce is at offset 39 that is a length of four.
* `Blake256`: an update after a partial one loses or overtakes buffered bytes for some lengths, given exactly; the one-shot
  hash and the HMAC only use the others.
* `ChunkFormat`: WantMore is false too early after the first and the second byte of the last chunk and after the first,
  the second and the last byte of the chunk of an empty write, and nowhere else.
* `PaymentOrder`: nothing makes the heights of payouts increase. A share is paid for twice if and only if the last paid block
  passes its height, is set back below it and passes it again, as in a run of three blocks that is given.
* `OaesModes`: the stepping code of oaes_lib.c is compiled in, since its switch is defined (as 0) and only tested for that
  (CryptoNight/oaes_config.h:42-44), so every context holds a step bit beside its mode, and so does every header it writes.
* `Payments`: 100 is added to the fee twice, so the miners get `reward * 100 / (200 + fee)`.

The hash functions and compression functions that the properties do not open (the fast hash, the BLAKE and Groestl
compression functions, the Skein rounds) are arbitrary functions: parameters of the members that use them.

## Model

| member | source | states |
|---|---|---|
| Varint.ReadInvertsEncode | CryptoNight/varint.h:15-56 | Reading what was written gives the value back and consumes exactly its bytes, whatever follows, at every width that holds it |
| Varint.ReadsExactlyTheEncodings | CryptoNight/varint.h:33-56 | A read succeeds with n bytes and value v if and only if the first n bytes are the canonical encoding of v and v fits: other forms are refused |
| Varint.ReadFits | CryptoNight/varint.h:44-50 | An accepted value fits the width |
| Varint.ReadIsBounded | CryptoNight/varint.h:38-55 | No read goes on past the bytes that the width allows |
| Varint.EncodeLength | CryptoNight/varint.h:15-23 | How many bytes a value takes at most |
| Varint.WriteVarint | CryptoNight/varint.h:15-23 | The loop writes the encoding |
| Varint.ReadVarint | CryptoNight/varint.h:33-56 | The loop returns the status, the value and the position of the reading, error codes included |
| Archive.ParseVecInverts | CryptoNight/serialization/vector.h:28-74 | A counted vector is read back from its printed form for every element format that is, and the check of the remaining bytes never refuses it |
| Archive.ParseAllInverts | CryptoNight/serialization/crypto.h:11-47 | Elements printed one after the other without a count are read back when their number is known |
| Archive.PrimitivesInvert | CryptoNight/serialization/binary_archive.h:53-102 | Bytes, blobs and varint elements are read back |
| Archive.TakeU64InvertsEncode | CryptoNight/serialization/binary_archive.h:82-87 | A printed varint field is read back although read failures are ignored |
| Archive.UintOfPrint | CryptoNight/serialization/binary_archive.h:59-73 | Little-endian integers are read back |
| Archive.PrintUintInverse | CryptoNight/serialization/binary_archive.h:125-134 | The printed form of a little-endian integer read from some bytes is those bytes |
| Archive.Reader.ReadUint | CryptoNight/serialization/binary_archive.h:59-73 | The loop over shift computes the little-endian value and moves the position |
| Archive.Reader.ReadVector | CryptoNight/serialization/vector.h:28-55 | The vector loop is the parser of counted vectors, fail bit and remaining-bytes check included |
| Archive.Reader.ReadElements | CryptoNight/serialization/vector.h:44-52 | The element loop is the parser of so many elements |
| Archive.Writer.WriteUint | CryptoNight/serialization/binary_archive.h:125-134 | The byte loop appends the little-endian form |
| Archive.Writer.WriteVector | CryptoNight/serialization/vector.h:57-74 | The vector writer appends the count and the elements |
| Cryptonote.TxInRoundTrip | CryptoNight/cryptonote_basic.h:56-107 | Each of the four inputs is read back by the tag search, whatever follows |
| Cryptonote.TxOutRoundTrip | CryptoNight/cryptonote_basic.h:109-123 | Outputs with each of the three targets are read back |
| Cryptonote.PrefixRoundTrip | CryptoNight/cryptonote_basic.h:138-145 | Transaction prefixes are read back |
| Cryptonote.SignaturesRoundTrip | CryptoNight/cryptonote_basic.h:164-191 | Signature lists without counts are read back, their lengths taken from the inputs |
| Cryptonote.TransactionRoundTrip | CryptoNight/cryptonote_basic.h:161-192 | A transaction that can be saved is read back in its loaded form: one list of signatures for each input |
| Cryptonote.HeaderRoundTrip | CryptoNight/cryptonote_basic.h:239-255 | Block headers are read back |
| Cryptonote.BlockRoundTrip | CryptoNight/cryptonote_basic.h:257-267 | Every block that can be saved, with all its nested parts, is read back in loaded form from its serialisation followed by any bytes, and those are left |
| Cryptonote.ParsedIsStable | CryptoNight/cryptonote_basic.h:161-192 | What was loaded can be saved and is loaded as the same |
| Cryptonote.LoadedPrintsAlike | CryptoNight/cryptonote_basic.h:167-180 | The loaded form prints as the saved one |
| Cryptonote.LoadSignatures | CryptoNight/cryptonote_basic.h:166-190 | The loading loop is the parser of signature lists |
| Cryptonote.LoadBlock | CryptoNight/cryptonote_basic.h:262-266 | Loading steps through the archive as the parser does |
| Cryptonote.ParseBlob | CryptoNight/block.cpp:15-24 | A whole blob is accepted if and only if the parser ends exactly at its end |
| Cryptonote.SaveSignatures | CryptoNight/cryptonote_basic.h:164-191 | Saving succeeds if and only if the signatures fit the inputs, and appends them |
| Cryptonote.SaveBlock | CryptoNight/cryptonote_basic.h:262-266 | Saving a block gives its printed form |
| WireVectors.VarintGroups | CryptoNight/varint.h:15-23 | The groups of seven bits are those of the number, lowest first, and all bytes but the last have the high bit |
| WireVectors.BlockBytes | CryptoNight/cryptonote_basic.h:56-267 | The bytes, one by one, of a block with every kind of input and output |
| WireVectors.Refused | CryptoNight/cryptonote_basic.h:75-191 | Unknown tags, counts of elements that are not there and signatures that do not fit are refused |
| TreeHash.WidthIsTopBitIff | CryptoNight/tree-hash.cpp:22-27 | The width is the highest power of two in count - 1 if and only if successive set bits of it lie close enough for the shortened smear |
| TreeHash.SmallCountsAreGapless | CryptoNight/tree-hash.cpp:22-27 | All counts up to 513 are such counts and 514 is not |
| TreeHash.RootIsMerkleRoot | CryptoNight/tree-hash.cpp:28-40 | The root that the code computes is the recursive Merkle root of the leaves, for an arbitrary hash of pairs |
| TreeHash.RootIsMerkleRootIff | CryptoNight/tree-hash.cpp:14-42 | With a hash that forgets nothing it is the Merkle root exactly for those counts |
| TreeHash.LostLeafIsLost | CryptoNight/tree-hash.cpp:22-40 | For every other count, whatever the hash and the transactions, there is a transaction that can be changed without changing the root |
| TreeHash.RootIsInjectiveIff | CryptoNight/tree-hash.cpp:14-42 | With a hash that forgets nothing the root determines the transactions exactly for the counts without a long gap |
| TreeHash.ReduceIsBalanced | CryptoNight/tree-hash.cpp:34-40 | Halving level by level is the balanced tree |
| TreeHash.WidthOf | CryptoNight/tree-hash.cpp:22-27 | The shifting loop computes the width |
| TreeHash.FillFirstLevel | CryptoNight/tree-hash.cpp:28-33 | The leading leaves are kept, the others paired, and the leaf index ends at count |
| TreeHash.HalveInPlace | CryptoNight/tree-hash.cpp:34-39 | The nested loops overwrite the array with each next level without losing what they still read |
| TreeHash.TreeHashOf | CryptoNight/tree-hash.cpp:14-42 | The whole function returns the root, for one and two leaves too |
| TreeHash.MerkleRootShape | CryptoNight/tree-hash.cpp:22-40 | In the Merkle root the leaves keep their order, the first ones k levels down and the paired ones k + 1 |
| TreeHash.RootOfThree | CryptoNight/tree-hash.cpp:14-42 | The root of three leaves is H(a, H(b, c)) |
| BlockWork.HashingBlobFits | CryptoNight/block.cpp:26-33 | The converted blob has at most 92 bytes and fits the buffer of 128 |
| BlockWork.NonceAt39Iff | MoneroPool/CryptoNightPool.cs:185-187 | With one-byte versions the nonce is at offset 39 if and only if the timestamp takes five bytes |
| BlockWork.PatchSetsNonce | MoneroPool/CryptoNightPool.cs:235-240 | Overwriting four bytes at offset 39 of a serialised block serialises the block with that nonce, if its nonce is there |
| BlockWork.PatchSetsNonceIff | MoneroPool/CryptoNightPool.cs:235-240 | For any block whatever: the patch sets every nonce of four bytes if and only if versions and timestamp put the nonce at offset 39 |
| BlockWork.ConvertOfPrinted | CryptoNight/block.cpp:57-69 | Converting a serialised block gives its hashing blob |
| BlockWork.HashingBlobCommits | CryptoNight/block.cpp:26-55 | Behind the header the hashing blob holds the Merkle root of all transactions, the miner's first, where the count has no long gap, and then reads as how many they are |
| BlockWork.PatchCommutesWithConvert | MoneroPool/CryptoNightPool.cs:185-188 | Patching then converting is converting then patching for every nonce that ends inside the header |
| BlockWork.PatchCommutesIff | MoneroPool/CryptoNightPool.cs:162-187 | For nonces of any one length that fits both blobs: the two agree for all of them and all hashes if and only if the nonce ends inside the header; where the nonce belongs at offset 39 and at least four bytes are asked for, if and only if there are four |
| BlockWork.OverrunParts | MoneroPool/CryptoNightPool.cs:185-240 | A nonce that runs over the header into the tree root: a hash for which the two blobs part |
| BlockWork.FiveBytesPart | MoneroPool/CryptoNightPool.cs:185-240 | A block and a nonce of five bytes for which they part |
| BlockWork.PatchSetsExtra | MoneroPool/StaticClasses.cs:160-171 | Overwriting reserved bytes changes the extra field and nothing else |
| BlockWork.SeedsGiveDifferentBlocks | MoneroPool/StaticClasses.cs:160-171 | Different seeds make different blocks |
| BlockWork.SeedsDiffer | MoneroPool/StaticClasses.cs:160-171 | Two jobs have the same seed, and the same seed bytes, if and only if they are a multiple of 2^32 jobs apart |
| BlockWork.SeedVectors | MoneroPool/StaticClasses.cs:165 | Seeds are written lowest byte first, in two's complement |
| BlockWork.LoadedHashesAlike | CryptoNight/block.cpp:47-55 | Loading does not change what is hashed |
| BlockWork.WorkSource.GetConvertedBlob | MoneroPool/StaticClasses.cs:259-264 | The buffer of 128 bytes, cut to the returned length, holds the hashing blob |
| BlockWork.WorkSource.ThroughBuffer | CryptoNight/block.cpp:66-68 | Copying to the buffer and taking the length loses nothing |
| BlockWork.WorkSource.GetBlockHashingBlob | CryptoNight/block.cpp:26-33 | Header, tree root and count are appended |
| BlockWork.WorkSource.GenerateRawWork | MoneroPool/StaticClasses.cs:173-185 | The work is the serialised block of the seed |
| BlockWork.WorkSource.GenerateConvertedWork | MoneroPool/StaticClasses.cs:173-185 | The converted work is its hashing blob |
| BlockWork.WorkSource.GenerateUniqueWork | MoneroPool/StaticClasses.cs:160-171 | Each work takes the next seed, wrapping |
| BlockWork.WorkSource.ShareAndSubmission | MoneroPool/CryptoNightPool.cs:181-240 | For every nonce: which lengths are refused, which bytes are checked and submitted; if the nonce ends inside the header, the blob checked is the hashing blob of the block submitted |
| IntUtil.Mul128 | CryptoNight/int-util.h:44-68 | The two words are the exact 128-bit product |
| IntUtil.AddPartialProducts | CryptoNight/int-util.h:58-67 | The carries of the partial products come out right |
| IntUtil.DivWithReminder | CryptoNight/int-util.h:70-74 | One step of long division |
| IntUtil.Div128By32 | CryptoNight/int-util.h:77-92 | Four steps divide 128 bits exactly |
| Positional.ToDigitsInvertsFromDigits | CryptoNight/base58.cpp:110-123 | Digits of a number of digits are those digits |
| Positional.FromDigitsInvertsToDigits | CryptoNight/base58.cpp:133-148 | The number of the digits of a number is that number |
| Positional.SuffixBelow | CryptoNight/base58.cpp:135-148 | The digits read so far are below the power reached |
| Base58.BlockFits | CryptoNight/base58.cpp:110-123 | A block of n bytes fits its number of letters |
| Base58.BlockRoundTrip | CryptoNight/base58.cpp:110-156 | An encoded block is decoded to itself |
| Base58.AcceptedBlockRoundTrip | CryptoNight/base58.cpp:125-156 | A letter block that is accepted is the encoding of what it decodes to |
| Base58.DecodeInvertsEncode | CryptoNight/base58.cpp:159-212 | Decoding inverts encoding for all byte strings |
| Base58.EncodeInvertsDecode | CryptoNight/base58.cpp:182-212 | Encoding inverts decoding for all accepted strings |
| Base58.AcceptsExactlyEncodings | CryptoNight/base58.cpp:182-212 | A string is accepted with some data if and only if it is their encoding |
| Base58.EncodedLength | CryptoNight/base58.cpp:164-166 | The length of an encoding |
| WireVectors.GreatestBlock | CryptoNight/base58.cpp:110-123 | The letters of the greatest block of eight bytes |
| Base58.DecodedLength | CryptoNight/base58.cpp:190-197 | The length of what is decoded |
| Base58.EncodeLetters | CryptoNight/base58.cpp:110-123 | Letters are written from the last place on and never before the first |
| Base58.AddDigit | CryptoNight/base58.cpp:141-147 | The overflow test is exact: it fires if and only if the sum does not fit a word |
| Base58.DecodeLetters | CryptoNight/base58.cpp:125-156 | The loop is the decoding of a block, all three refusals included; powers of 58 in use do not wrap |
| Base58.EncodeString | CryptoNight/base58.cpp:159-180 | The block loop is the encoding |
| Base58.DecodeString | CryptoNight/base58.cpp:182-212 | The block loop is the decoding, refusals included |
| Address.MadeAddressDecodes | CryptoNight/base58.cpp:214-236 | An address made of prefix, data and checksum decodes to them |
| Address.AcceptsExactlyMadeAddresses | CryptoNight/address.cpp:14-36 | A string is accepted if and only if it has 95 characters and is the Base58 form of the canonical prefix, data and their checksum |
| Address.AcceptedParts | CryptoNight/base58.cpp:214-236 | The last four bytes of an accepted address are the first four of the hash of the others, which begin with the prefix |
| Address.PayloadIsLongEnough | CryptoNight/base58.cpp:219-230 | The payload of 95 letters is long enough for checksum and prefix |
| OaesTables.InvSubByteInverts | CryptoNight/oaes_lib.c:107-145 | The inverse substitution table inverts the substitution table |
| OaesTables.SubByteIsAffineInverse | CryptoNight/oaes_lib.c:107-125 | The substitution table holds the affine image of the inverse in GF(2^8), section 5.1.1 of FIPS 197 |
| OaesTables.TablesHoldProducts | CryptoNight/oaes_lib.c:147-265 | All six multiplication tables hold products in GF(2^8), section 4.2 of FIPS 197 |
| OaesBlock.InverseLane | CryptoNight/oaes_lib.c:418-456 | Each byte of the inverse column mix of a mixed column is the byte mixed |
| OaesBlock.InvMixInvertsMix | CryptoNight/oaes_lib.c:418-456 | Inverse mixing of columns undoes mixing |
| OaesBlock.InvShiftInvertsShift | CryptoNight/oaes_lib.c:327-381 | Inverse shifting of rows undoes shifting |
| OaesBlock.InvSubInvertsSub | CryptoNight/oaes_lib.c:267-297 | Inverse substitution of a block undoes substitution |
| OaesBlock.BackwardUndoesForward | CryptoNight/oaes_lib.c:1129-1243 | The rounds backward undo the rounds forward, round by round |
| OaesBlock.InvCipherInvertsCipher | CryptoNight/oaes_lib.c:1012-1243 | Decryption of a block undoes encryption for every block and all round keys |
| OaesConverse.CipherInvertsInvCipher | CryptoNight/oaes_lib.c:1012-1243 | Encryption of a block undoes decryption, too |
| OaesBlock.RconTable | CryptoNight/oaes_lib.c:104-106 | The table of round constants holds the powers of x |
| OaesBlock.ScheduleAt | CryptoNight/oaes_lib.c:583-613 | The words of the expanded key are the words of section 5.2 of FIPS 197 |
| OaesBlock.ExpandedStart | CryptoNight/oaes_lib.c:568-581 | The expanded key starts with the key and has the length of the standard |
| OaesBlock.ExpandedWord | CryptoNight/oaes_lib.c:583-613 | Every later word of the expanded key is made of two words before it by the rule of section 5.2 of FIPS 197, the case of 32 bytes included |
| OaesVector.KeyExpansion | CryptoNight/oaes_lib.c:559-616 | The first 32 words of the expansion of the key of 32 bytes of appendix C.3 of FIPS 197, byte by byte |
| OaesVector.FirstRound | CryptoNight/oaes_lib.c:1050-1090 | The first round of the same example, byte by byte |
| OaesVector.TwoRounds | CryptoNight/oaes_lib.c:1012-1127 | Its plain text under its first three round keys, byte by byte: first, middle and last round in their order |
| Oaes.SubBytesInPlace | CryptoNight/oaes_lib.c:1053-1054 | The byte loop in place is SubBytes, section 5.1.1 of FIPS 197 |
| Oaes.ShiftRowsInPlace | CryptoNight/oaes_lib.c:327-353 | Written over itself through a copy, the block becomes its ShiftRows, section 5.1.2 of FIPS 197 |
| Oaes.InvShiftRowsInPlace | CryptoNight/oaes_lib.c:355-381 | Written over itself through a copy, the block becomes its inverse ShiftRows, section 5.3.1 of FIPS 197 |
| Oaes.MixColumnsInPlace | CryptoNight/oaes_lib.c:418-436 | Mixing one word after the other in place is MixColumns, section 5.1.3 of FIPS 197 |
| Oaes.InvMixColumnsInPlace | CryptoNight/oaes_lib.c:438-456 | Mixing back one word after the other in place is the inverse, section 5.3.3 of FIPS 197 |
| Oaes.OaesKey.constructor | CryptoNight/oaes_lib.c:559-616 | The expanded key is that of section 5.2 of FIPS 197 for keys of 16, 24 and 32 bytes |
| Oaes.OaesKey.ExpandWord | CryptoNight/oaes_lib.c:584-613 | Word i of the expanded key is made from words i-1 and i-Nk, the words before it unchanged |
| Oaes.TurnInTable | CryptoNight/oaes_lib.c:599 | Ten round constants are enough for every key size |
| OaesModes.CipherBlockAt | CryptoNight/oaes_lib.c:1287-1312 | Each cipher block is the encryption of its plain block, chained in CBC |
| OaesModes.DecryptInvertsEncrypt | CryptoNight/oaes_lib.c:1245-1441 | Decrypting the blocks of a message undoes encrypting them, in ECB and in CBC (sections 6.1 and 6.2 of NIST SP 800-38A) |
| OaesModes.UnpadInvertsPad | CryptoNight/oaes_lib.c:1418-1438 | The padding is taken off again |
| OaesModes.OpenInvertsSeal | CryptoNight/oaes_lib.c:1245-1441 | For every option word: decryption gives every message of every length back, header, chaining and padding included, or refuses it if no header may have these options |
| OaesConverse.OpensExactlySealed | CryptoNight/oaes_lib.c:1317-1441 | Decryption takes a buffer and returns a message if and only if the buffer is, but for the unused header bytes, what encryption makes of that message with the options and the vector that the buffer shows |
| OaesModes.SealHeader | CryptoNight/oaes_lib.c:100-103 | The header, byte by byte: magic, version, type, options, pad flag, vector |
| OaesModes.SealBlocks | CryptoNight/oaes_lib.c:1286-1312 | Each block behind it, filled with 1, 2 and so on, is enciphered, in CBC with the block before it added |
| OaesModes.ContextOptionsPass | CryptoNight/oaes_lib.c:1374-1388 | The option words that a context can hold, and that each of them passes the header check |
| OaesContext.OaesCtx.constructor | CryptoNight/oaes_lib.c:881-919 | A new context chains, does not step and has no key |
| OaesContext.OaesCtx.SetOption | CryptoNight/oaes_lib.c:948-1010 | Exactly one mode and one step bit are set after any call, with the initialisation vector that goes with the mode; error codes as in the source |
| OaesContext.CheckHeader | CryptoNight/oaes_lib.c:1348-1396 | The header tests accept exactly the headers of the definition |
| OaesContext.OaesCtx.KeyImportData | CryptoNight/oaes_lib.c:829-889 | Keys of other lengths are refused and leave the context as it was |
| OaesContext.OaesCtx.EncryptBlock | CryptoNight/oaes_lib.c:1012-1127 | The block in place becomes its encryption; error codes as in the source |
| OaesContext.OaesCtx.DecryptBlock | CryptoNight/oaes_lib.c:1129-1243 | The block in place becomes its decryption |
| OaesContext.OaesCtx.PaddedBlock | CryptoNight/oaes_lib.c:1287-1296 | The last block is filled with 1, 2, and so on |
| OaesContext.OaesCtx.Encrypt | CryptoNight/oaes_lib.c:1245-1315 | The buffer holds the sealed message, what is beyond it is untouched, and the context keeps the last block as its vector; error codes as in the source |
| OaesContext.OaesCtx.Decrypt | CryptoNight/oaes_lib.c:1317-1441 | The buffer holds the opened message, its padding blanked; error codes as in the source |
| OaesContext.RemovePad | CryptoNight/oaes_lib.c:1418-1438 | The padding is refused or blanked exactly as its bytes count down |
| Blake256.UpdateIsIdeal | CryptoNight/blake256.cpp:127-155 | An update works on buffered bytes and data together unless it loses bytes |
| Blake256.UpdateIsIdealIff | CryptoNight/blake256.cpp:131-154 | The buffered and new lengths for which an update is right whatever the bytes are |
| Blake256.LosingUpdate | CryptoNight/blake256.cpp:131-154 | For every other pair of lengths, bytes for which the update goes wrong |
| Blake256.AfterMessage | CryptoNight/blake256.cpp:141-147 | The chain value and the counter words after the whole blocks |
| Blake256.LengthIs | CryptoNight/blake256.cpp:163-167 | The length field is the number of message bits |
| Blake256.CounterRestored | CryptoNight/blake256.cpp:170-187 | The wrapping subtractions leave the counter at the number of message bits |
| Blake256.FinishInOneBlock | CryptoNight/blake256.cpp:169-188 | Up to 55 bytes left: one block, its counter disabled if it holds no message |
| Blake256.FinishInTwoBlocks | CryptoNight/blake256.cpp:177-188 | More than 55 bytes left: two blocks, the second with its counter disabled |
| Blake256.OneShot | CryptoNight/blake256.cpp:209-214 | The hash is the fold of the compression function over the padded message with the counters of section 2.1.3 of the BLAKE submission |
| HashCases.RootFraction | CryptoNight/blake256.cpp:100-110 | The initial chain value: 32 bits of the fractions of the square roots of the first primes |
| HashCases.BlakeShort | CryptoNight/blake256.cpp:127-214 | Up to 54 bytes: block, counter and digest written out |
| HashCases.BlakeFull | CryptoNight/blake256.cpp:169-188 | At 55 bytes the two one bits of the padding meet in one byte |
| HashCases.HmacWithoutKey | CryptoNight/blake256.cpp:225-302 | Without a key: the two pads written out |
| Blake256.State.CompressDirect | CryptoNight/blake256.cpp:141-154 | The loop over whole blocks and the store of the rest |
| Blake256.State.UpdateWith | CryptoNight/blake256.cpp:127-155 | The whole new state of an update |
| Blake256.State.Final | CryptoNight/blake256.cpp:162-198 | The whole new state of the final steps, and the digest |
| Blake256.HashOf | CryptoNight/blake256.cpp:209-214 | The code returns BLAKE-256 of the message |
| Blake256.BlockFirst | CryptoNight/blake256.cpp:225-252 | An update with one block before the message is an update with both |
| Blake256.PadIs | CryptoNight/blake256.cpp:238-249 | The pads are the xor with the zero-filled key |
| Blake256.HmacState.constructor | CryptoNight/blake256.cpp:225-252 | Both states have taken the padded key, long keys hashed first |
| Blake256.HmacState.Final | CryptoNight/blake256.cpp:296-302 | The outer hash takes the inner digest |
| Blake256.HmacOf | CryptoNight/blake256.cpp:313-318 | The code computes HMAC, section 2 of RFC 2104, for every key and text length |
| Keccak.RotationTable | CryptoNight/keccak.cpp:20-24 | The rotation table holds the triangular numbers of section 3.2.2 of FIPS 202 |
| Keccak.PlaceIsWalk | CryptoNight/keccak.cpp:26-30 | The lane table is the walk of section 3.2.2 |
| Keccak.SourceIs | CryptoNight/keccak.cpp:26-30 | Pi moves each lane to the next place of that walk |
| Keccak.RoundConstantIs | CryptoNight/keccak.cpp:8-18 | The round constants are those of the shift register of section 3.2.5 |
| Keccak.RhoAt | CryptoNight/keccak.cpp:51-58 | Which lanes the first steps of the walk have turned |
| Keccak.RhoPiAt | CryptoNight/keccak.cpp:51-58 | Each lane after Rho and Pi |
| Keccak.ThetaInPlace | CryptoNight/keccak.cpp:42-49 | In place it is Theta |
| Keccak.RhoPiInPlace | CryptoNight/keccak.cpp:51-58 | The cycle through one temporary is the simultaneous Rho and Pi of sections 3.2.2 and 3.2.3 |
| Keccak.ChiInPlace | CryptoNight/keccak.cpp:60-66 | In place, a row at a time, it is Chi |
| Keccak.Permute | CryptoNight/keccak.cpp:34-71 | The rounds are those of section 3.3 |
| Keccak.PaddedIsWhole | CryptoNight/keccak.cpp:93-97 | The padded message is whole blocks, with one to a block of padding |
| Keccak.LastBlock | CryptoNight/keccak.cpp:93-97 | The last block with its padding, one byte of padding included |
| Keccak.Hash | CryptoNight/keccak.cpp:76-107 | The hash is the sponge of section 4 of FIPS 202 over the padded message, for every length |
| HashCases.ThetaAt | CryptoNight/keccak.cpp:42-49 | Each lane after Theta, written out |
| HashCases.KeccakShort | CryptoNight/keccak.cpp:76-107 | Up to 134 bytes: the block with its padding written out |
| Skein1024.WindowMoves | CryptoNight/skein.cpp:1070-1071 | The writes move both windows on: the tweak word lands on a dead key word |
| Skein1024.SubkeyInWindow | CryptoNight/skein.cpp:1053-1069 | The words read at injection k are those of subkey k |
| Skein1024.Inject | CryptoNight/skein.cpp:1053-1072 | An injection adds its subkey and keeps the windows |
| Skein1024.SetUp | CryptoNight/skein.cpp:968-990 | The first window, parity words included |
| Skein1024.Context.Encrypt | CryptoNight/skein.cpp:996-1138 | The looping form is Threefish with the schedule of section 3.3.2 of the Skein specification |
| Skein1024.Context.ProcessBlocks | CryptoNight/skein.cpp:962-1165 | Chain value and tweak after any number of blocks |
| HashCases.SubkeyAt | CryptoNight/skein.cpp:968-990 | Each word of each subkey, written out |
| Skein512.SplitUpdates | CryptoNight/skein.cpp:1492-1536 | Any split of a message into updates reaches the state of one update, with 1 to 64 bytes held back once any have come |
| Skein512.HeldBack | CryptoNight/skein.cpp:1498-1533 | Which bytes are held back: those after the last whole block that is not the end |
| Skein512.ClosedIs | CryptoNight/skein.cpp:1540-1550 | The final block ends the chaining of the definition: positions, first and final flags, zero padding |
| Skein512.Context.UpdateWith | CryptoNight/skein.cpp:1492-1536 | The whole new state of an update |
| Skein512.Context.Emit | CryptoNight/skein.cpp:1555-1569 | Every output block is made from the same chain value |
| Skein512.Context.Final | CryptoNight/skein.cpp:1540-1571 | The digest of the state |
| Skein512.HashOf | CryptoNight/skein.cpp:1492-1571 | The code computes the definition of sections 3.4 and 3.5 |
| HashCases.SkeinShort | CryptoNight/skein.cpp:1492-1571 | Up to 64 bytes: position, flags and block written out |
| HashCases.SkeinTwo | CryptoNight/skein.cpp:1492-1571 | Up to 128 bytes: both positions, flags and blocks written out |
| HashCases.SkeinOutput | CryptoNight/skein.cpp:1555-1569 | 32 bytes of output: the counter block and its flags written out |
| Groestl.SplitUpdates | CryptoNight/groestl.cpp:226-269 | Any split of a message into updates reaches the state of one update |
| Groestl.AbsorbIs | CryptoNight/groestl.cpp:163-176 | Chain value, number of blocks and buffered bytes after any message |
| Groestl.ClosedIs | CryptoNight/groestl.cpp:280-316 | Final digests the padding, whose length field is the number of blocks of the padded message |
| Groestl.HashState.Count | CryptoNight/groestl.cpp:173-174 | The two counter words count modulo 2^64 |
| Groestl.HashState.Transform | CryptoNight/groestl.cpp:163-176 | The block loop |
| Groestl.HashState.UpdateWith | CryptoNight/groestl.cpp:226-269 | The whole new state of an update |
| Groestl.HashState.StoreCounters | CryptoNight/groestl.cpp:307-314 | The loops write the counters big-endian |
| Groestl.HashState.Final | CryptoNight/groestl.cpp:275-323 | The digest of the state |
| Groestl.HashBytes | CryptoNight/groestl.cpp:335-350 | The code computes the definition |
| HashCases.GroestlShort | CryptoNight/groestl.cpp:275-350 | Up to 55 bytes: initial value, padding and output written out |
| ChunkFormat.SizeOfHex | Mono.HttpListener/ChunkStream.cs:278-294 | Digits are a size if and only if they take no more than 32 bits, in two's complement from 80000000 on |
| ChunkFormat.SizeInEitherCase | Mono.HttpListener/ChunkStream.cs:278-294 | Leading zeros and the digits of n, each letter in either case, are read as n |
| ChunkFormat.ReadLine | Mono.HttpListener/ChunkStream.cs:241-308 | A size line of any sender, extension included, leads to the body of n bytes or to the trailer |
| ChunkFormat.SizeOfDigits | Mono.HttpListener/ResponseStream.cs:118-122 | Printed sizes are read back |
| ChunkFormat.FeedTwice | Mono.HttpListener/ChunkStream.cs:146-188 | Feeding bytes in two parts is feeding them in one |
| ChunkFormat.ReadChunk | Mono.HttpListener/ResponseStream.cs:135-167 | A printed chunk adds its data to the payload, an empty one reads as the last |
| ChunkFormat.ReadAll | Mono.HttpListener/ResponseStream.cs:76-167 | A printed response in one piece gives its payload |
| ChunkFormat.AnyCuts | Mono.HttpListener/ChunkStream.cs:104-188 | However the bytes are cut and the reads are placed, nothing throws, the payload comes out in order, and the state is that of one write |
| ChunkFormat.SaidIsRead | Mono.HttpListener/ChunkStream.cs:104-188 | Any cuts of what any sender says (chunks of any size with digits in either case, extensions, a last chunk, trailer lines), with reads of any size, give exactly the data, and WantMore is false at the end (section 4.1 of RFC 7230) |
| ChunkFormat.OtherSender | Mono.HttpListener/ChunkStream.cs:278-294 | A size line in upper case with a leading zero and an extension is one of them |
| ChunkFormat.PrintedIsRead | Mono.HttpListener/ResponseStream.cs:76-167 | The same for what this library prints |
| ChunkFormat.LongLine | Mono.HttpListener/ChunkStream.cs:267-268 | A size line of more than twenty bytes is refused |
| ChunkFormat.BrokenLines | Mono.HttpListener/ChunkStream.cs:251-331 | A second carriage return in a size line, and anything but a line end behind a chunk, is refused |
| ChunkFormat.PrefixIsRead | Mono.HttpListener/ChunkStream.cs:111-188 | Before the end nothing throws and what is read is a prefix of the data, for any sender |
| ChunkFormat.WantMoreGivesUpEarly | Mono.HttpListener/ChunkStream.cs:190-193 | After exactly which bytes of any response WantMore is false |
| ChunkStream.Chunk.Read | Mono.HttpListener/ChunkStream.cs:60-66 | As many bytes as wait and fit |
| ChunkStream.ChunkStream.GetChunkSize | Mono.HttpListener/ChunkStream.cs:241-308 | The size line, complete or not: it throws or ends in the state that the bytes one by one lead to |
| ChunkStream.ChunkStream.ReadBody | Mono.HttpListener/ChunkStream.cs:222-239 | The bytes of the chunk that are there; a negative size throws |
| ChunkStream.ChunkStream.ReadCRLF | Mono.HttpListener/ChunkStream.cs:318-334 | The line end after a chunk, cut or not |
| ChunkStream.ChunkStream.ReadTrailer | Mono.HttpListener/ChunkStream.cs:336-393 | The trailer, cut or not; its field lines never reach the headers |
| ChunkStream.ChunkStream.InternalWrite | Mono.HttpListener/ChunkStream.cs:146-188 | For every state and all bytes: it terminates, throws exactly when reading byte by byte does, and ends in the same state |
| ChunkStream.ChunkStream.Write | Mono.HttpListener/ChunkStream.cs:140-144 | A call with no bytes between offset and end does nothing; any other is InternalWrite |
| ChunkStream.ChunkStream.ReadFromChunks | Mono.HttpListener/ChunkStream.cs:116-138 | The oldest waiting bytes, as many as there is room for, across chunks |
| ChunkStream.ChunkStream.Read | Mono.HttpListener/ChunkStream.cs:111-114 | Reading changes nothing but what waits |
| ChunkStream.ChunkStream.DataAvailable | Mono.HttpListener/ChunkStream.cs:195-210 | Bytes wait and no chunk is being read |
| ChunkStream.ChunkStream.WantMore | Mono.HttpListener/ChunkStream.cs:190-193 | The flag of the state |
| ChunkStream.ResponseStream.Send | Mono.HttpListener/ResponseStream.cs:140-166 | Headers, size line and data go out in order across the 16384-byte piece; longer headers throw |
| ChunkStream.ResponseStream.Write | Mono.HttpListener/ResponseStream.cs:135-167 | What has been sent is the headers and a chunk for each write |
| ChunkStream.ResponseStream.Close | Mono.HttpListener/ResponseStream.cs:76-99 | What has been sent ends with the last chunk; closing again sends nothing |
| Ledger.PutFind | MoneroPool/RedisPoolDatabase.cs:214-303 | What is found after an upsert |
| Ledger.PutMembers | MoneroPool/RedisPoolDatabase.cs:214-303 | Who is in the list after an upsert |
| Ledger.PutUnique | MoneroPool/RedisPoolDatabase.cs:214-303 | Which keys an upsert keeps unique |
| Ledger.Save | MoneroPool/RedisPoolDatabase.cs:218-226 | The loop with RemoveAt and Insert is the upsert |
| Ledger.LinkNew | MoneroPool/CryptoNightPool.cs:138-145 | A new member at the end of its owner's list keeps lists and references in agreement |
| Ledger.CreditOld | MoneroPool/CryptoNightPool.cs:118-136 | A share for a reward record that exists keeps the ledger consistent |
| Ledger.CreditNew | MoneroPool/CryptoNightPool.cs:138-151 | A share for a new record, with a new miner or a new block or neither, keeps the ledger consistent |
| Ledger.CreditKeeps | MoneroPool/CryptoNightPool.cs:103-152 | Crediting keeps identifiers, heights, addresses and pairs unique and all lists in agreement, and the total value grows by exactly the share's |
| Ledger.ShareIsListedOnce | MoneroPool/CryptoNightPool.cs:124-145 | Each share is in one record's list, the one it names |
| Ledger.PoolDatabase.FindReward | MoneroPool/CryptoNightPool.cs:118-122 | The search loop |
| Ledger.PoolDatabase.IncreaseShareCount | MoneroPool/CryptoNightPool.cs:103-152 | The whole new ledger after crediting, or the division by zero |
| Owed.CreditGoesToWorker | MoneroPool/CryptoNightPool.cs:103-152 | The new share is found in the record of the miner with the worker's address and of the block at the current height, and every miner's share value grows by the share's if the address is his and by nothing otherwise |
| Owed.CreditKeepsRecords | MoneroPool/CryptoNightPool.cs:103-152 | Addresses, bookings, heights and flags stay as they are; new records start empty |
| Payments.SumSwap | MoneroPool/BlockPayment.cs:35-57 | The order of the nested sums does not matter |
| Payments.EveryShareCountsOnce | MoneroPool/BlockPayment.cs:35-57 | The loops over miners, rewards and shares count every share of the range, and each once |
| Payments.MinerGetsOwnShares | MoneroPool/BlockPayment.cs:35-57 | What the loops add up for a miner is the value of the shares of the range whose reward record names that miner |
| Payments.RateTimesTotal | MoneroPool/BlockPayment.cs:59-61 | All shares together are worth what there is to share out |
| Payments.CutSum | MoneroPool/BlockPayment.cs:67-76 | Cutting off fractions loses less than one unit a miner |
| Payments.PaidAsSent | MoneroPool/BlockPayment.cs:70-74 | What is booked as paid is what is sent |
| Payments.PayoutIsFair | MoneroPool/BlockPayment.cs:18-90 | The amounts sum to at most the reward times 100 over 100 plus the fee, fall short of it by less than one unit a miner, and equal what is added to TotalPaidOut |
| Payments.SumMiners | MoneroPool/BlockPayment.cs:35-57 | The dictionary of sums and the total |
| Payments.InitiatePayments | MoneroPool/BlockPayment.cs:18-90 | All destinations, all bookings and the last paid block |
| PaymentRuns.PoolState.PayPass | MoneroPool/BlockPayment.cs:100-132 | One pass visits each pending block once, in order, despite the removals, and does what the blocks' states ask |
| PaymentRuns.PoolState.SubmitPass | MoneroPool/BlockSubmitter.cs:24-86 | One pass looks at each submission once, keeps those whose height awaits payment or that the daemon could not be asked about, and drops the others |
| PaymentRuns.PoolState.Submit | MoneroPool/BlockSubmitter.cs:39-77 | An accepted block is recorded, and awaits payment if its hash could be asked for |
| Owed.SubmissionMarks | MoneroPool/BlockSubmitter.cs:46-51 | The record at the height of an accepted block says found and by whom; no other record changes |
| Owed.SubmitPassPends | MoneroPool/BlockSubmitter.cs:24-86 | After a pass a block awaits payment only if it did before or was accepted in the pass, and each accepted block has one of its height awaiting payment |
| Owed.SubmitPassKeepsApart | MoneroPool/BlockSubmitter.cs:24-86 | No two blocks of one height come to await payment, and what the daemon could not be asked about stays submitted |
| PaymentRuns.ChangedBlock | MoneroPool/BlockPayment.cs:126-128 | Marking a block changes no height and no reward |
| PaymentRuns.PaidStaysConsistent | MoneroPool/BlockPayment.cs:67-76 | A payout keeps the ledger consistent |
| PaymentRuns.CreditHeights | MoneroPool/CryptoNightPool.cs:108-111 | A new share is at the current height, the others stay where they are |
| PaymentRuns.PayForIsRight | MoneroPool/BlockPayment.cs:40-57 | A payout for a higher block pays exactly the shares that no payout has paid, those of orphaned rounds among them |
| PaymentRuns.PayForIsRightIff | MoneroPool/BlockPayment.cs:25-57 | Without increasing heights a payout keeps the record right if and only if it sets LastPaidBlock back below no block that has shares |
| PaymentRuns.SetBackPaysTwice | MoneroPool/BlockPayment.cs:25-87 | A share that is set back is paid for again |
| PaymentRuns.PassIsSound | MoneroPool/BlockPayment.cs:100-132 | A whole pass under one chain tip keeps the invariant |
| Owed.VisitPays | MoneroPool/BlockPayment.cs:111-131 | A confirmed block books for every miner his part of its reward less the fee, cut; any other block books nothing |
| Owed.PassPays | MoneroPool/BlockPayment.cs:100-132 | A whole pass books for every miner the sum of what is due from the confirmed blocks, each cut once |
| Owed.SentIsDue | MoneroPool/BlockPayment.cs:59-76 | To each miner's address is sent what is due to him, cut, and that is what is booked |
| Owed.VisitTotal | MoneroPool/BlockPayment.cs:111-131 | A confirmed block with share value books in all no more than its reward less the fee and less than one unit a miner below it; any other books nothing |
| Owed.PassTotal | MoneroPool/BlockPayment.cs:100-132 | What a whole pass books is the sum of the rewards of the confirmed blocks less the fee, up to one unit a miner and a block |
| Owed.PassMarks | MoneroPool/BlockPayment.cs:100-132 | After a pass the records of exactly the orphaned blocks are newly marked, and exactly the blocks that are neither confirmed nor orphaned still await payment |
| PaymentRuns.RunsAreSound | MoneroPool/BlockPayment.cs:92-134 | The invariant holds in every reachable state |
| PaymentRuns.EveryShareIsPaidOnce | MoneroPool/BlockPayment.cs:92-134 | Over every run in which accepted heights increase each share is paid for at most once, and exactly once if and only if its block is at or below the last paid one |
| PaymentOrder.TwoCrossings | MoneroPool/BlockPayment.cs:25-43 | Two payouts pay ranges with a height in them if and only if the last paid block passes the height, is set back below it and passes it again |
| PaymentOrder.PaidAsOftenAsPassed | MoneroPool/BlockPayment.cs:18-134 | Over every run at all: a share is paid for as often as a payout goes from a block below its height to one that is not, counted from when it was credited |
| PaymentOrder.PaidTwiceIff | MoneroPool/BlockPayment.cs:18-134 | Over every run at all: exactly when a share is paid for twice |
| PaymentOrder.SharePaidTwice | MoneroPool/BlockPayment.cs:100-121 | A run of shares at three heights, blocks accepted in the order 2, 1, 3 and one payment pass, after which the share at height 2 has been paid for twice |
| PaymentOrder.SubmitPassIsAnswers | MoneroPool/BlockSubmitter.cs:24-86 | A submission pass is a sequence of answers to the submissions that it does not keep |
| PaymentOrder.RunGoesOnWithPass | MoneroPool/BlockSubmitter.cs:22-86 | Every run goes on with any submission pass |
| ListenerQueues.NextIsSafe | Mono.HttpListener/HttpListener.cs:193-339 | Every lock region keeps the invariant |
| ListenerQueues.RunsAreSafe | Mono.HttpListener/HttpListener.cs:193-339 | It holds in every reachable state, however the regions interleave |
| ListenerQueues.NothingLostOrDoubled | Mono.HttpListener/HttpListener.cs:193-339 | One of the queues is empty, no context reaches two callers, and none is lost unless unregistered |
| ListenerQueues.GivenStays | Mono.HttpListener/HttpListener.cs:311-328 | What a caller has been given stays his |
| ListenerQueues.FirstCallerFirst | Mono.HttpListener/HttpListener.cs:193-327 | Over every run: a caller that begins to wait behind another gets no context while the other still waits |
| ListenerQueues.FirstContextFirst | Mono.HttpListener/HttpListener.cs:193-327 | Over every run: a context queued behind another reaches no caller while the other is still queued |
| ListenerQueues.HttpListener.BeginGetContext | Mono.HttpListener/HttpListener.cs:193-215 | The region of BeginGetContext is its step |
| ListenerQueues.HttpListener.RemoveWaiter | Mono.HttpListener/HttpListener.cs:233-237 | The region of EndGetContext is its step |
| ListenerQueues.HttpListener.AddToRegistry | Mono.HttpListener/HttpListener.cs:313-314 | The first region of RegisterContext is its step |
| ListenerQueues.HttpListener.HandOver | Mono.HttpListener/HttpListener.cs:316-327 | The second region of RegisterContext is its step: the context goes to the caller that waits longest, or to the queue |
| ListenerQueues.HttpListener.RemoveFromRegistry | Mono.HttpListener/HttpListener.cs:332-333 | The first region of UnregisterContext is its step |
| ListenerQueues.HttpListener.RemoveFromQueue | Mono.HttpListener/HttpListener.cs:334-338 | The second region of UnregisterContext is its step: the context leaves the queue if it is still there |

## Left out

- Entities of the ledger, transactions and scripts are values in sequences. Where the source changes a shared object and then saves it, the model saves the changed value; references held elsewhere are not modelled.
- Pointers into the middle of a buffer (`block + 4`, `m + _i`, `data + fill`) are offsets, or copies of the part; calls in which input and output buffers overlap are not modelled, nor are null pointer arguments other than a missing output buffer.
- Ledger.PoolDatabase.IncreaseShareCount: the worker's address is a parameter, since the table of connected workers is not part of this model.
- Payments.InitiatePayments: amounts are exact reals cut to whole numbers; rounding of doubles, the range of long, and wrap-around of TotalPaidOut are not modelled. Without any share value the source divides by zero, and the result of its casts is a parameter. The wallet call succeeds.
- Payments.PayoutIsFair: a range with share value; without any the source divides by zero.
- PaymentRuns.PoolState.PayPass: the daemon answers for all pending blocks from one chain tip, and calls to it do not fail; a pending block has a record, as the submission pass provides.
- PaymentRuns.PoolState.SubmitPass: nothing else changes the two lists during a pass, so the daemon's answers and the removals of one pass come without credits or payments in between.
- PaymentRuns.EveryShareIsPaidOnce: accepted heights increase and the current height is above every paid one. What happens otherwise is PaymentOrder.PaidAsOftenAsPassed and PaymentOrder.PaidTwiceIff.
- ChunkStream.ChunkStream.InternalWrite: does not model wrap-around of `diff + chunkRead`, so the bytes of one call and those already read of the chunk fit an int; after an exception the state is not described; the total of bytes written and ResetBuffer are not modelled.
- ChunkStream.ChunkStream.ReadBody: as InternalWrite, the bytes of one call and those already read of the chunk fit an int.
- ChunkStream.ChunkStream.Write: as InternalWrite, the bytes of one call and those already read of the chunk fit an int.
- ChunkFormat.SizeOfHex: Int32.Parse is modelled as white space, hexadecimal digits, white space.
- ChunkFormat.SaidIsRead: extensions and trailer lines without carriage returns, and size lines of at most twenty bytes before a space, the most that the source takes (Mono.HttpListener/ChunkStream.cs:267).
- ChunkStream.ResponseStream.Write: the headers that SendHeaders makes are given, and the underlying stream does not fail; BeginWrite is not modelled.
- OaesContext.OaesCtx.Decrypt: a message that consists of a header and a vector only and has the pad flag makes the source look before its buffer; the model does not take it.
- OaesContext.OaesCtx.SetOption: random bytes are a parameter; a function passed as a vector or a vector passed as a function is not modelled.
- OaesContext.OaesCtx.EncryptBlock: the calls of the step function are not modelled, here and in DecryptBlock; it gets the state to look at.
- BlockWork.PatchSetsNonce: nonces of four bytes, the width of the field; what longer ones do is BlockWork.PatchCommutesIff.
- BlockWork.WorkSource.GenerateRawWork: the template is the serialisation of a block that can be saved, with the reserved bytes in its extra field, as the daemon makes it; the same in the other members of WorkSource.
- BlockWork.WorkSource.ShareAndSubmission: the template is the same for both uses of the nonce. The source reads the current template afresh for each (MoneroPool/CryptoNightPool.cs:185 and 236), with a hash in between, so it may have changed.
- BlockWork.WorkSource.GetConvertedBlob: only blobs that parse; for others the source hashes whatever was read before the failure.
- Blake256.State.UpdateWith: whole bytes only, as everywhere in the hash functions; partial bytes are not modelled. The variant with 224 bits is not modelled, nor are the salts.
- Skein1024.Context.ProcessBlocks: blocks are given as words; the mixing rounds are an arbitrary function.
- Skein512.HashOf: starts from the chain value of the configuration block, which is a parameter. The other state sizes and keyed hashing are not modelled.
- Groestl.HashState.Final: clearing the context after the digest is not modelled.
- Keccak.Hash: lengths of the digest for which a block is a whole number of lanes and fits the buffer.
- Base58.DecodeLetters: the switch of uint_8be_to_64 and SWAP64BE are taken as big-endian numbers.
- TreeHash.TreeHashOf: `cnt * 64` and the other sizes are unbounded.
- ListenerQueues.HandOver and the other regions: anonymous authentication; closing the listener, timeouts and the forwarding of results are not modelled.
- Cryptonote: the JSON and debug archives are not modelled; they only print.
- Not modelled at all: sockets, JSON-RPC, Redis storage, configuration, bans and variable difficulty (clocks and floating point), the check for duplicate nonces, the job window, CryptoNight's slow hash as a whole, JH, the rounds of Groestl and Skein.
