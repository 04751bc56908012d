/** Blocks and transactions on the wire (CryptoNight/cryptonote_basic.h). */
module Cryptonote {
  import opened Bytes
  import opened Archive
  import Varint

  datatype Script = Script(keys: Vec<Blob32>, script: Vec<Byte>)

  datatype TxIn =
    | Gen(height: U64)
    | ToScript(prev: Blob32, prevout: U64, sigset: Vec<Byte>)
    | ToScriptHash(prev: Blob32, prevout: U64, spent: Script, sigset: Vec<Byte>)
    | ToKey(amount: U64, keyOffsets: Vec<U64>, keyImage: Blob32)

  datatype Target =
    | OutScript(script: Script)
    | OutScriptHash(hash: Blob32)
    | OutKey(key: Blob32)

  datatype TxOut = TxOut(amount: U64, target: Target)

  datatype Prefix = Prefix(version: U64, unlockTime: U64, vin: Vec<TxIn>, vout: Vec<TxOut>, extra: Vec<Byte>)

  datatype Transaction = Transaction(prefix: Prefix, signatures: seq<seq<Blob64>>)

  datatype Header = Header(major: Byte, minor: Byte, timestamp: U64, prevId: Blob32, nonce: U32)

  datatype Block = Block(header: Header, minerTx: Transaction, txHashes: Vec<Blob32>)

  /** transaction::get_signature_size: one signature for each ring member, none for other inputs. */
  function SignatureSize(i: TxIn): nat {
    if i.ToKey? then |i.keyOffsets| else 0
  }

  // ----- printing

  function PrintScript(s: Script): seq<Byte> {
    PrintVec(PrintBlob32, s.keys) + PrintVec(PrintByte, s.script)
  }

  function PrintTxIn(i: TxIn): seq<Byte> {
    match i
    case Gen(height) => [0xff] + Varint.Encode(height)
    case ToScript(prev, prevout, sigset) =>
      [0x00] + (prev + (Varint.Encode(prevout) + PrintVec(PrintByte, sigset)))
    case ToScriptHash(prev, prevout, spent, sigset) =>
      [0x01] + (prev + (Varint.Encode(prevout) + (PrintScript(spent) + PrintVec(PrintByte, sigset))))
    case ToKey(amount, keyOffsets, keyImage) =>
      [0x02] + (Varint.Encode(amount) + (PrintVec(PrintU64, keyOffsets) + keyImage))
  }

  function PrintTarget(t: Target): seq<Byte> {
    match t
    case OutScript(script) => [0x00] + PrintScript(script)
    case OutScriptHash(hash) => [0x01] + hash
    case OutKey(key) => [0x02] + key
  }

  function PrintTxOut(o: TxOut): seq<Byte> {
    Varint.Encode(o.amount) + PrintTarget(o.target)
  }

  function PrintPrefix(p: Prefix): seq<Byte> {
    Varint.Encode(p.version) + (Varint.Encode(p.unlockTime) +
    (PrintVec(PrintTxIn, p.vin) + (PrintVec(PrintTxOut, p.vout) + PrintVec(PrintByte, p.extra))))
  }

  /** Signatures carry no counts: their number is read off the inputs. */
  function PrintSignatures(sigs: seq<seq<Blob64>>): seq<Byte> {
    if sigs == [] then [] else PrintAll(PrintBlob64, sigs[0]) + PrintSignatures(sigs[1..])
  }

  predicate SignaturesFit(vin: seq<TxIn>, sigs: seq<seq<Blob64>>) {
    |vin| == |sigs| && forall i :: 0 <= i < |vin| ==> |sigs[i]| == SignatureSize(vin[i])
  }

  /** Saving succeeds when every input has its signatures, or when there is no list at all and
      no input wants any. */
  predicate Savable(tx: Transaction) {
    if tx.signatures == [] then forall i :: 0 <= i < |tx.prefix.vin| ==> SignatureSize(tx.prefix.vin[i]) == 0
    else SignaturesFit(tx.prefix.vin, tx.signatures)
  }

  /** What loading makes of a savable transaction: one list of signatures for each input. */
  function Loaded(tx: Transaction): Transaction {
    if tx.signatures == [] then tx.(signatures := seq(|tx.prefix.vin|, _ => [])) else tx
  }

  function PrintTransaction(tx: Transaction): seq<Byte> {
    PrintPrefix(tx.prefix) + PrintSignatures(tx.signatures)
  }

  function PrintHeader(h: Header): seq<Byte> {
    Varint.Encode(h.major) + (Varint.Encode(h.minor) +
    (Varint.Encode(h.timestamp) + (h.prevId + PrintUint(h.nonce, 4))))
  }

  function PrintBlock(b: Block): seq<Byte> {
    PrintHeader(b.header) + (PrintTransaction(b.minerTx) + PrintVec(PrintBlob32, b.txHashes))
  }

  // ----- parsing

  function ParseScript(s: seq<Byte>): Option<(Script, seq<Byte>)> {
    var (keys, s1) :- ParseVec(ParseBlob32, s);
    var (script, s2) :- ParseVec(ParseByte, s1);
    Some((Script(keys, script), s2))
  }

  /** variant_reader: the tag is compared with each alternative's in turn. */
  function ParseTxIn(s: seq<Byte>): Option<(TxIn, seq<Byte>)> {
    var (tag, s0) :- ParseByte(s);
    if tag == 0xff then
      var (height, s1) := TakeU64(s0);
      Some((Gen(height), s1))
    else if tag == 0x00 then
      var (prev, s1) :- ParseBlob32(s0);
      var (prevout, s2) := TakeU64(s1);
      var (sigset, s3) :- ParseVec(ParseByte, s2);
      Some((ToScript(prev, prevout, sigset), s3))
    else if tag == 0x01 then
      var (prev, s1) :- ParseBlob32(s0);
      var (prevout, s2) := TakeU64(s1);
      var (spent, s3) :- ParseScript(s2);
      var (sigset, s4) :- ParseVec(ParseByte, s3);
      Some((ToScriptHash(prev, prevout, spent, sigset), s4))
    else if tag == 0x02 then
      var (amount, s1) := TakeU64(s0);
      var (keyOffsets, s2) :- ParseVec(ParseU64, s1);
      var (keyImage, s3) :- ParseBlob32(s2);
      Some((ToKey(amount, keyOffsets, keyImage), s3))
    else None
  }

  function ParseTarget(s: seq<Byte>): Option<(Target, seq<Byte>)> {
    var (tag, s0) :- ParseByte(s);
    if tag == 0x00 then
      var (script, s1) :- ParseScript(s0);
      Some((OutScript(script), s1))
    else if tag == 0x01 then
      var (hash, s1) :- ParseBlob32(s0);
      Some((OutScriptHash(hash), s1))
    else if tag == 0x02 then
      var (key, s1) :- ParseBlob32(s0);
      Some((OutKey(key), s1))
    else None
  }

  function ParseTxOut(s: seq<Byte>): Option<(TxOut, seq<Byte>)> {
    var (amount, s0) := TakeU64(s);
    var (target, s1) :- ParseTarget(s0);
    Some((TxOut(amount, target), s1))
  }

  function ParsePrefix(s: seq<Byte>): Option<(Prefix, seq<Byte>)> {
    var (version, s1) := TakeU64(s);
    var (unlockTime, s2) := TakeU64(s1);
    var (vin, s3) :- ParseVec(ParseTxIn, s2);
    var (vout, s4) :- ParseVec(ParseTxOut, s3);
    var (extra, s5) :- ParseVec(ParseByte, s4);
    Some((Prefix(version, unlockTime, vin, vout, extra), s5))
  }

  function ParseRing(n: nat, s: seq<Byte>): Option<(seq<Blob64>, seq<Byte>)> {
    if |s| < n * 64 then None else ParseAll(ParseBlob64, n, s)
  }

  function ParseSignatures(vin: seq<TxIn>, s: seq<Byte>): Option<(seq<seq<Blob64>>, seq<Byte>)> {
    if vin == [] then Some(([], s))
    else
      var (ring, s1) :- ParseRing(SignatureSize(vin[0]), s);
      var (rings, s2) :- ParseSignatures(vin[1..], s1);
      Some(([ring] + rings, s2))
  }

  function ParseTransaction(s: seq<Byte>): Option<(Transaction, seq<Byte>)> {
    var (prefix, s1) :- ParsePrefix(s);
    var (signatures, s2) :- ParseSignatures(prefix.vin, s1);
    Some((Transaction(prefix, signatures), s2))
  }

  function ParseHeader(s: seq<Byte>): Option<(Header, seq<Byte>)> {
    assert Pow2(8) == 256;
    var (major, s1) := TakeVarint(s, 8);
    var (minor, s2) := TakeVarint(s1, 8);
    var (timestamp, s3) := TakeU64(s2);
    var (prevId, s4) :- ParseBlob32(s3);
    var (nonce, s5) :- ParseUint(s4, 4);
    Pow2Of32(); UintOfBound(s4[..4]);
    Some((Header(major, minor, timestamp, prevId, nonce), s5))
  }

  function ParseBlock(s: seq<Byte>): Option<(Block, seq<Byte>)> {
    var (header, s1) :- ParseHeader(s);
    var (minerTx, s2) :- ParseTransaction(s1);
    var (txHashes, s3) :- ParseVec(ParseBlob32, s2);
    Some((Block(header, minerTx, txHashes), s3))
  }

  lemma Pow2Of32()
    ensures Pow2(32) == TWO_32
  {
    assert Pow2(8) == 256;
    Pow2Adds(8, 8);
    Pow2Adds(16, 16);
  }

  // ----- parsing undoes printing

  lemma ScriptRoundTrip(x: Script, tail: seq<Byte>)
    ensures ParseScript(PrintScript(x) + tail) == Some((x, tail))
  {
    hide Varint.Encode, PrintVec, ParseVec, PrintAll, ParseAll, TakeU64, TakeVarint, Varint.Read, Pow2;
    PrimitivesInvert();
    var s1 := PrintVec(PrintByte, x.script) + tail;
    assert PrintScript(x) + tail == PrintVec(PrintBlob32, x.keys) + s1;
    ParseVecInverts(ParseBlob32, PrintBlob32, x.keys, s1);
    ParseVecInverts(ParseByte, PrintByte, x.script, tail);
  }

  lemma BlobThen(b: Blob32, rest: seq<Byte>)
    ensures ParseBlob32(b + rest) == Some((b, rest))
  {
    assert (b + rest)[..32] == b && (b + rest)[32..] == rest;
  }

  lemma TagThen(tag: Byte, rest: seq<Byte>)
    ensures ParseByte([tag] + rest) == Some((tag, rest))
  {
    assert ([tag] + rest)[1..] == rest;
  }

  lemma ToScriptRoundTrip(prev: Blob32, prevout: U64, sigset: Vec<Byte>, tail: seq<Byte>)
    ensures ParseTxIn(PrintTxIn(ToScript(prev, prevout, sigset)) + tail)
         == Some((ToScript(prev, prevout, sigset), tail))
  {
    hide Varint.Encode, PrintVec, ParseVec, PrintAll, ParseAll, TakeU64, TakeVarint, Varint.Read, Pow2, PrintScript,
         ParseScript;
    PrimitivesInvert();
    var e, v := Varint.Encode(prevout), PrintVec(PrintByte, sigset);
    Cat4(prev, e, v, tail);
    Cat3([0x00], prev + (e + v), tail);
    TagThen(0x00, prev + (e + (v + tail)));
    BlobThen(prev, e + (v + tail));
    TakeU64InvertsEncode(prevout, v + tail);
    ParseVecInverts(ParseByte, PrintByte, sigset, tail);
  }

  lemma ToScriptHashRoundTrip(prev: Blob32, prevout: U64, spent: Script, sigset: Vec<Byte>, tail: seq<Byte>)
    ensures ParseTxIn(PrintTxIn(ToScriptHash(prev, prevout, spent, sigset)) + tail)
         == Some((ToScriptHash(prev, prevout, spent, sigset), tail))
  {
    hide Varint.Encode, PrintVec, ParseVec, PrintAll, ParseAll, TakeU64, TakeVarint, Varint.Read, Pow2, PrintScript,
         ParseScript;
    PrimitivesInvert();
    var e, k, v := Varint.Encode(prevout), PrintScript(spent), PrintVec(PrintByte, sigset);
    Cat6([0x01], prev, e, k, v, tail);
    TagThen(0x01, prev + (e + (k + (v + tail))));
    BlobThen(prev, e + (k + (v + tail)));
    TakeU64InvertsEncode(prevout, k + (v + tail));
    ScriptRoundTrip(spent, v + tail);
    ParseVecInverts(ParseByte, PrintByte, sigset, tail);
  }

  lemma ToKeyBody(amount: U64, keyOffsets: Vec<U64>, keyImage: Blob32, tail: seq<Byte>)
    ensures var s := Varint.Encode(amount) + (PrintVec(PrintU64, keyOffsets) + (keyImage + tail));
            var (a, s1) := TakeU64(s);
            a == amount && ParseVec(ParseU64, s1) == Some((keyOffsets, keyImage + tail))
  {
    PrimitivesInvert();
    TakeU64InvertsEncode(amount, PrintVec(PrintU64, keyOffsets) + (keyImage + tail));
    ParseVecInverts(ParseU64, PrintU64, keyOffsets, keyImage + tail);
  }

  lemma ToKeyRoundTrip(amount: U64, keyOffsets: Vec<U64>, keyImage: Blob32, tail: seq<Byte>)
    ensures ParseTxIn(PrintTxIn(ToKey(amount, keyOffsets, keyImage)) + tail)
         == Some((ToKey(amount, keyOffsets, keyImage), tail))
  {
    hide Varint.Encode, PrintVec, ParseVec, PrintAll, ParseAll, TakeU64, TakeVarint, Varint.Read, Pow2, PrintScript,
         ParseScript;
    var e, v := Varint.Encode(amount), PrintVec(PrintU64, keyOffsets);
    Cat3([0x02], e + (v + keyImage), tail);
    Cat3(e, v + keyImage, tail);
    Cat3(v, keyImage, tail);
    TagThen(0x02, e + (v + (keyImage + tail)));
    ToKeyBody(amount, keyOffsets, keyImage, tail);
    BlobThen(keyImage, tail);
  }

  lemma TxInRoundTrip(x: TxIn, tail: seq<Byte>)
    ensures ParseTxIn(PrintTxIn(x) + tail) == Some((x, tail))
  {
    hide Varint.Encode, PrintVec, ParseVec, PrintAll, ParseAll, TakeU64, TakeVarint, Varint.Read, Pow2, PrintScript,
         ParseScript;
    match x {
      case Gen(height) =>
        TakeU64InvertsEncode(height, tail);
        assert (PrintTxIn(x) + tail)[1..] == Varint.Encode(height) + tail;
      case ToScript(prev, prevout, sigset) =>
        ToScriptRoundTrip(prev, prevout, sigset, tail);
      case ToScriptHash(prev, prevout, spent, sigset) =>
        ToScriptHashRoundTrip(prev, prevout, spent, sigset, tail);
      case ToKey(amount, keyOffsets, keyImage) =>
        ToKeyRoundTrip(amount, keyOffsets, keyImage, tail);
    }
  }

  lemma TxOutRoundTrip(x: TxOut, tail: seq<Byte>)
    ensures ParseTxOut(PrintTxOut(x) + tail) == Some((x, tail))
  {
    hide Varint.Encode, PrintVec, ParseVec, PrintAll, ParseAll, TakeU64, TakeVarint, Varint.Read, Pow2, PrintScript,
         ParseScript;
    var s0 := PrintTarget(x.target) + tail;
    assert PrintTxOut(x) + tail == Varint.Encode(x.amount) + s0;
    TakeU64InvertsEncode(x.amount, s0);
    match x.target {
      case OutScript(script) =>
        assert s0[1..] == PrintScript(script) + tail;
        ScriptRoundTrip(script, tail);
      case OutScriptHash(hash) =>
        assert s0[1..] == hash + tail;
        assert s0[1..][..32] == hash && s0[1..][32..] == tail;
      case OutKey(key) =>
        assert s0[1..] == key + tail;
        assert s0[1..][..32] == key && s0[1..][32..] == tail;
    }
  }

  lemma InputsAndOutputsInvert()
    ensures Inverts(ParseTxIn, PrintTxIn) && Inverts(ParseTxOut, PrintTxOut)
  {
    forall x: TxIn, tail: seq<Byte> ensures ParseTxIn(PrintTxIn(x) + tail) == Some((x, tail)) {
      TxInRoundTrip(x, tail);
    }
    forall x: TxOut, tail: seq<Byte> ensures ParseTxOut(PrintTxOut(x) + tail) == Some((x, tail)) {
      TxOutRoundTrip(x, tail);
    }
  }

  lemma PrefixRoundTrip(p: Prefix, tail: seq<Byte>)
    ensures ParsePrefix(PrintPrefix(p) + tail) == Some((p, tail))
  {
    hide Varint.Encode, PrintVec, ParseVec, PrintAll, ParseAll, TakeU64, TakeVarint, Varint.Read, Pow2, ParseTxIn,
         ParseTxOut, PrintTxIn, PrintTxOut;
    PrimitivesInvert();
    InputsAndOutputsInvert();
    var a, b := Varint.Encode(p.version), Varint.Encode(p.unlockTime);
    var c, d, e := PrintVec(PrintTxIn, p.vin), PrintVec(PrintTxOut, p.vout), PrintVec(PrintByte, p.extra);
    Cat6(a, b, c, d, e, tail);
    TakeU64InvertsEncode(p.version, b + (c + (d + (e + tail))));
    TakeU64InvertsEncode(p.unlockTime, c + (d + (e + tail)));
    ParseVecInverts(ParseTxIn, PrintTxIn, p.vin, d + (e + tail));
    ParseVecInverts(ParseTxOut, PrintTxOut, p.vout, e + tail);
    ParseVecInverts(ParseByte, PrintByte, p.extra, tail);
  }

  lemma {:induction false} BlobsLength(v: seq<Blob64>)
    ensures |PrintAll(PrintBlob64, v)| == 64 * |v|
  {
    if v != [] {
      BlobsLength(v[1..]);
    }
  }

  lemma {:induction false} SignaturesRoundTrip(vin: seq<TxIn>, sigs: seq<seq<Blob64>>, tail: seq<Byte>)
    requires SignaturesFit(vin, sigs)
    ensures ParseSignatures(vin, PrintSignatures(sigs) + tail) == Some((sigs, tail))
  {
    hide PrintAll, ParseAll;
    if sigs == [] {
      assert PrintSignatures(sigs) + tail == tail;
    } else {
      var s1 := PrintSignatures(sigs[1..]) + tail;
      assert PrintSignatures(sigs) + tail == PrintAll(PrintBlob64, sigs[0]) + s1;
      PrimitivesInvert();
      ParseAllInverts(ParseBlob64, PrintBlob64, sigs[0], s1);
      BlobsLength(sigs[0]);
      SignaturesRoundTrip(vin[1..], sigs[1..], tail);
      assert [sigs[0]] + sigs[1..] == sigs;
    }
  }

  lemma {:induction false} EmptyRingsPrintNothing(sigs: seq<seq<Blob64>>)
    requires forall i :: 0 <= i < |sigs| ==> sigs[i] == []
    ensures PrintSignatures(sigs) == []
  {
    if sigs != [] {
      EmptyRingsPrintNothing(sigs[1..]);
    }
  }

  lemma LoadedPrintsAlike(tx: Transaction)
    ensures PrintTransaction(Loaded(tx)) == PrintTransaction(tx)
  {
    EmptyRingsPrintNothing(if tx.signatures == [] then Loaded(tx).signatures else []);
  }

  lemma TransactionRoundTrip(tx: Transaction, tail: seq<Byte>)
    requires Savable(tx)
    ensures ParseTransaction(PrintTransaction(tx) + tail) == Some((Loaded(tx), tail))
  {
    LoadedPrintsAlike(tx);
    var sigs := Loaded(tx).signatures;
    hide PrintPrefix, ParsePrefix, PrintSignatures, ParseSignatures;
    Cat3(PrintPrefix(tx.prefix), PrintSignatures(sigs), tail);
    PrefixRoundTrip(tx.prefix, PrintSignatures(sigs) + tail);
    SignaturesRoundTrip(tx.prefix.vin, sigs, tail);
  }

  lemma HeaderRoundTrip(h: Header, tail: seq<Byte>)
    ensures ParseHeader(PrintHeader(h) + tail) == Some((h, tail))
  {
    var s4 := PrintUint(h.nonce, 4) + tail;
    var s3 := h.prevId + s4;
    var s2 := Varint.Encode(h.timestamp) + s3;
    var s1 := Varint.Encode(h.minor) + s2;
    assert PrintHeader(h) + tail == Varint.Encode(h.major) + s1;
    assert Pow2(8) == 256;
    Varint.ReadInvertsEncode(h.major, s1, 8);
    Varint.ReadInvertsEncode(h.minor, s2, 8);
    TakeU64InvertsEncode(h.timestamp, s3);
    assert s3[..32] == h.prevId && s3[32..] == s4;
    assert s4[..4] == PrintUint(h.nonce, 4) && s4[4..] == tail;
    Pow2Of32();
    UintOfPrint(h.nonce, 4);
  }

  /** Any savable block, printed and followed by anything, parses back to its loaded form and
      leaves exactly what followed. */
  lemma BlockRoundTrip(b: Block, tail: seq<Byte>)
    requires Savable(b.minerTx)
    ensures ParseBlock(PrintBlock(b) + tail) == Some((b.(minerTx := Loaded(b.minerTx)), tail))
  {
    hide Varint.Encode, PrintVec, ParseVec, PrintAll, ParseAll, ParseHeader, PrintHeader, ParseTransaction,
         PrintTransaction;
    PrimitivesInvert();
    var s2 := PrintVec(PrintBlob32, b.txHashes) + tail;
    var s1 := PrintTransaction(b.minerTx) + s2;
    assert PrintBlock(b) + tail == PrintHeader(b.header) + s1;
    HeaderRoundTrip(b.header, s1);
    TransactionRoundTrip(b.minerTx, s2);
    ParseVecInverts(ParseBlob32, PrintBlob32, b.txHashes, tail);
  }

  lemma {:induction false} ParsedSignaturesFit(vin: seq<TxIn>, s: seq<Byte>)
    ensures ParseSignatures(vin, s).Some? ==> SignaturesFit(vin, ParseSignatures(vin, s).value.0)
  {
    if vin != [] && ParseRing(SignatureSize(vin[0]), s).Some? {
      ParsedSignaturesFit(vin[1..], ParseRing(SignatureSize(vin[0]), s).value.1);
    }
  }

  /** Whatever bytes were parsed, the result is savable and already in loaded form, so printing
      and parsing it again changes nothing. */
  lemma ParsedIsStable(s: seq<Byte>, tail: seq<Byte>)
    requires ParseBlock(s).Some?
    ensures var b := ParseBlock(s).value.0;
            Savable(b.minerTx) && Loaded(b.minerTx) == b.minerTx && ParseBlock(PrintBlock(b) + tail) == Some((b, tail))
  {
    var b := ParseBlock(s).value.0;
    var s1 := ParseHeader(s).value.1;
    var (prefix, s2) := ParsePrefix(s1).value;
    ParsedSignaturesFit(prefix.vin, s2);
    assert b.minerTx.signatures == [] ==> seq(|prefix.vin|, _ => []) == b.minerTx.signatures;
    BlockRoundTrip(b, tail);
  }

  // ----- the do_serialize bodies

  lemma SignaturesStep(vin: seq<TxIn>, s: seq<Byte>, done: seq<seq<Blob64>>)
    requires vin != []
    ensures Prepend(done, ParseSignatures(vin, s)) ==
            match ParseRing(SignatureSize(vin[0]), s)
            case None => None
            case Some((ring, rest)) => Prepend(done + [ring], ParseSignatures(vin[1..], rest))
  {
    var r := ParseRing(SignatureSize(vin[0]), s);
    if r.Some? {
      var (ring, rest) := r.value;
      var more := ParseSignatures(vin[1..], rest);
      assert more.Some? ==> done + ([ring] + more.value.0) == (done + [ring]) + more.value.0;
    }
  }

  lemma SignaturesEnd(s: seq<Byte>, done: seq<seq<Blob64>>)
    ensures Prepend(done, ParseSignatures([], s)) == Some((done, s))
  {
    assert done + [] == done;
  }

  /** The signature part of transaction::do_serialize_object when loading: the list is resized to
      one entry for each input, so it is empty (`signatures_not_expected`) only without inputs. */
  method LoadSignatures(ar: Reader, vin: seq<TxIn>) returns (ok: bool, signatures: seq<seq<Blob64>>)
    requires ar.good
    modifies ar
    ensures ok <==> ParseSignatures(vin, old(ar.rest)).Some?
    ensures ok ==> ar.good && ParseSignatures(vin, old(ar.rest)) == Some((signatures, ar.rest))
  {
    hide ParseSignatures, ParseAll, Prepend;
    signatures := seq(|vin|, _ => []);
    var i := 0;
    PrependNothing(ParseSignatures(vin, ar.rest));
    assert vin[0..] == vin;
    while i < |vin|
      invariant i <= |vin| == |signatures| && ar.good
      invariant ParseSignatures(vin, old(ar.rest)) == Prepend(signatures[..i], ParseSignatures(vin[i..], ar.rest))
    {
      var size := SignatureSize(vin[i]);
      SignaturesStep(vin[i..], ar.rest, signatures[..i]);
      assert vin[i..][1..] == vin[i + 1..];
      var left := ar.Remaining();
      if left < size * 64 {
        ar.good := false;
        return false, signatures;
      }
      var ring;
      ok, ring := ar.ReadElements(ParseBlob64, size);
      if !ok {
        return false, signatures;
      }
      assert signatures[i := ring][..i + 1] == signatures[..i] + [ring];
      signatures := signatures[i := ring];
      i := i + 1;
    }
    SignaturesEnd(ar.rest, signatures);
    assert signatures[..i] == signatures && vin[i..] == [];
    ok := true;
  }

  method LoadPrefix(ar: Reader) returns (ok: bool, p: Prefix)
    requires ar.good
    modifies ar
    ensures ok <==> ParsePrefix(old(ar.rest)).Some?
    ensures ok ==> ar.good && ParsePrefix(old(ar.rest)) == Some((p, ar.rest))
  {
    hide Varint.Encode, PrintVec, ParseVec, PrintAll, ParseAll, TakeU64, TakeVarint, Varint.Read, Pow2, ParseTxIn,
         ParseTxOut, PrintTxIn, PrintTxOut;
    var version := ar.ReadSize();
    var unlockTime := ar.ReadSize();
    p := Prefix(version, unlockTime, [], [], []);
    var vin, vout, extra;
    ok, vin := ar.ReadVector(ParseTxIn);
    if !ok { return; }
    ok, vout := ar.ReadVector(ParseTxOut);
    if !ok { return; }
    ok, extra := ar.ReadVector(ParseByte);
    p := Prefix(version, unlockTime, vin, vout, extra);
  }

  method LoadHeader(ar: Reader) returns (ok: bool, h: Header)
    requires ar.good
    modifies ar
    ensures ok <==> ParseHeader(old(ar.rest)).Some?
    ensures ok ==> ar.good && ParseHeader(old(ar.rest)) == Some((h, ar.rest))
  {
    assert Pow2(8) == 256;
    var major := ar.ReadVarint(8);
    var minor := ar.ReadVarint(8);
    var timestamp := ar.ReadSize();
    h := Header(major, minor, timestamp, seq(32, _ => 0), 0);
    var prevId := ar.ReadBlob(32);
    if !ar.good { return false, h; }
    ghost var s4 := ar.rest;
    var nonce := ar.ReadUint(4);
    if !ar.good { return false, h; }
    Pow2Of32();
    UintOfBound(s4[..4]);
    return true, Header(major, minor, timestamp, prevId, nonce);
  }

  /** block::do_serialize_object on a loading archive. */
  method LoadBlock(ar: Reader) returns (ok: bool, b: Option<Block>)
    requires ar.good
    modifies ar
    ensures ok <==> ParseBlock(old(ar.rest)).Some?
    ensures ok ==> ar.good && b.Some? && ParseBlock(old(ar.rest)) == Some((b.value, ar.rest))
  {
    b := None;
    var header, prefix, signatures, txHashes;
    ok, header := LoadHeader(ar);
    if !ok { return; }
    ok, prefix := LoadPrefix(ar);
    if !ok { return; }
    ok, signatures := LoadSignatures(ar, prefix.vin);
    if !ok { return; }
    ok, txHashes := ar.ReadVector(ParseBlob32);
    b := Some(Block(header, Transaction(prefix, signatures), txHashes));
  }

  /** parse_and_validate_block_from_blob: the block, and then the end of the stream. */
  method ParseBlob(blob: seq<Byte>) returns (ok: bool, b: Option<Block>)
    ensures ok <==> ParseBlock(blob).Some? && ParseBlock(blob).value.1 == []
    ensures ok ==> b.Some? && ParseBlock(blob) == Some((b.value, []))
  {
    var ar := new Reader(blob);
    ok, b := LoadBlock(ar);
    if ok {
      ok := ar.good && ar.rest == [];
    }
  }

  /** The signature part of transaction::do_serialize_object when saving. */
  method SaveSignatures(ar: Writer, tx: Transaction) returns (ok: bool)
    modifies ar
    ensures ok <==> Savable(tx)
    ensures ok ==> ar.out == old(ar.out) + PrintSignatures(tx.signatures)
  {
    var vin, signatures := tx.prefix.vin, tx.signatures;
    var notExpected := signatures == [];
    if !notExpected && |vin| != |signatures| {
      return false;
    }
    var i := 0;
    while i < |vin|
      invariant i <= |vin|
      invariant forall k :: 0 <= k < i ==> (if notExpected then 0 else |signatures[k]|) == SignatureSize(vin[k])
      invariant notExpected ==> ar.out == old(ar.out)
      invariant !notExpected ==> ar.out + PrintSignatures(signatures[i..]) == old(ar.out) + PrintSignatures(signatures)
    {
      var size := SignatureSize(vin[i]);
      if notExpected {
        if size != 0 {
          return false;
        }
      } else {
        if size != |signatures[i]| {
          return false;
        }
        ghost var more := PrintSignatures(signatures[i + 1..]);
        ghost var before := ar.out;
        assert signatures[i..][0] == signatures[i] && signatures[i..][1..] == signatures[i + 1..];
        ar.WriteElements(PrintBlob64, signatures[i]);
        assert before + (PrintAll(PrintBlob64, signatures[i]) + more) == ar.out + more;
      }
      i := i + 1;
    }
    ok := true;
  }

  /** block::do_serialize_object on a saving archive. */
  method SaveBlock(b: Block) returns (ok: bool, blob: seq<Byte>)
    ensures ok <==> Savable(b.minerTx)
    ensures ok ==> blob == PrintBlock(b)
  {
    var ar := new Writer();
    SaveHeader(ar, b.header);
    SavePrefix(ar, b.minerTx.prefix);
    ok := SaveSignatures(ar, b.minerTx);
    if ok {
      ar.WriteVector(PrintBlob32, b.txHashes);
      ghost var h, p, s := PrintHeader(b.header), PrintPrefix(b.minerTx.prefix), PrintSignatures(b.minerTx.signatures);
      assert [] + h == h;
      Cat3(h, p, s);
      Cat3(h, p + s, PrintVec(PrintBlob32, b.txHashes));
    }
    blob := ar.out;
  }

  method SaveHeader(ar: Writer, h: Header)
    modifies ar
    ensures ar.out == old(ar.out) + PrintHeader(h)
  {
    ar.WriteVarint(h.major);
    ar.WriteVarint(h.minor);
    ar.WriteVarint(h.timestamp);
    ar.WriteBlob(h.prevId);
    ar.WriteUint(h.nonce, 4);
  }

  method SavePrefix(ar: Writer, p: Prefix)
    modifies ar
    ensures ar.out == old(ar.out) + PrintPrefix(p)
  {
    ar.WriteVarint(p.version);
    ar.WriteVarint(p.unlockTime);
    ar.WriteVector(PrintTxIn, p.vin);
    ar.WriteVector(PrintTxOut, p.vout);
    ar.WriteVector(PrintByte, p.extra);
    Cat6(old(ar.out), Varint.Encode(p.version), Varint.Encode(p.unlockTime),
         PrintVec(PrintTxIn, p.vin), PrintVec(PrintTxOut, p.vout), PrintVec(PrintByte, p.extra));
  }
}
