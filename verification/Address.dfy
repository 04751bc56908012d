/** Wallet addresses (CryptoNight/address.cpp and decode_addr in CryptoNight/base58.cpp). */
module Address {
  import opened Bytes
  import Archive
  import Base58
  import Varint

  const ADDRESS_LENGTH: nat := 95
  const CHECKSUM_SIZE: nat := 4

  /** keccak1600: the whole 200-byte state, for any input; left arbitrary. */
  type Digest = s: seq<Byte> | |s| == 200 witness seq(200, _ => 0)
  type Keccak1600 = seq<Byte> -> Digest

  function Checksum(payload: seq<Byte>, hash: Keccak1600): (c: seq<Byte>)
    ensures |c| == CHECKSUM_SIZE
  {
    hash(payload)[..CHECKSUM_SIZE]
  }

  /** decode_addr: the tag and the data behind it. A varint cut short by the end of the payload
      is not told from a complete one, since both give a positive count. */
  function DecodeAddr(addr: string, hash: Keccak1600): Option<(nat, seq<Byte>)> {
    var addrData :- Base58.Decode(addr);
    if |addrData| <= CHECKSUM_SIZE then None
    else
      var payload, checksum := addrData[..|addrData| - CHECKSUM_SIZE], addrData[|addrData| - CHECKSUM_SIZE..];
      if Checksum(payload, hash) != checksum then None
      else
        var reading := Varint.Read(payload, 0, 64);
        if reading.Code() <= 0 then None
        else Some((reading.value, payload[reading.consumed..]))
  }

  /** isValid */
  predicate IsValid(address: string, prefix: U64, hash: Keccak1600) {
    |address| == ADDRESS_LENGTH
    && var r := DecodeAddr(address, hash);
       r.Some? && r.value.0 == prefix
  }

  /** check_account_address */
  function CheckAccountAddress(address: string, prefix: U32, hash: Keccak1600): nat {
    if IsValid(address, prefix, hash) then 1 else 0
  }

  /** An address as a wallet makes it: prefix, data, checksum, all in Base58. */
  function MakeAddress(prefix: U64, data: seq<Byte>, hash: Keccak1600): string {
    var payload := Varint.Encode(prefix) + data;
    Base58.Encode(payload + Checksum(payload, hash))
  }

  /** Ninety-five letters carry sixty-nine bytes, so the varint cannot run off the payload. */
  lemma PayloadIsLongEnough(address: string)
    requires |address| == ADDRESS_LENGTH && Base58.Decode(address).Some?
    ensures |Base58.Decode(address).value| == 69
    ensures !Varint.Read(Base58.Decode(address).value[..65], 0, 64).status.Truncated?
  {
    Base58.DecodedLength(address);
    assert Base58.DecodedSize(7) == 5;
    Varint.ReadIsBounded(Base58.Decode(address).value[..65], 0, 64);
  }

  lemma MadeAddressDecodes(prefix: U64, data: seq<Byte>, hash: Keccak1600)
    ensures DecodeAddr(MakeAddress(prefix, data, hash), hash) == Some((prefix, data))
  {
    hide Varint.Encode, Varint.Read, Base58.Encode, Base58.Decode, Pow2;
    var payload := Varint.Encode(prefix) + data;
    var addrData := payload + Checksum(payload, hash);
    Base58.DecodeInvertsEncode(addrData);
    assert addrData[..|addrData| - 4] == payload && addrData[|addrData| - 4..] == Checksum(payload, hash);
    Archive.Pow2Of64();
    Varint.ReadInvertsEncode(prefix, data, 64);
    assert payload[|Varint.Encode(prefix)|..] == data;
  }

  lemma AcceptedIsMade(address: string, prefix: U64, hash: Keccak1600)
    requires IsValid(address, prefix, hash)
    ensures address == MakeAddress(prefix, DecodeAddr(address, hash).value.1, hash)
  {
    hide Varint.Encode, Varint.Read, Base58.Encode, Base58.Decode, Pow2;
    var addrData := Base58.Decode(address).value;
    PayloadIsLongEnough(address);
    var payload := addrData[..65];
    var r := Varint.Read(payload, 0, 64);
    Varint.ReadsExactlyTheEncodings(payload, r.consumed, r.value, 64);
    assert payload[..r.consumed] + payload[r.consumed..] == payload;
    assert payload + addrData[65..] == addrData;
    Base58.EncodeInvertsDecode(address);
  }

  /** The check accepts exactly the 95-letter addresses made from this prefix: Base58 of the
      canonical varint of the prefix, some data, and the first four checksum bytes. */
  lemma AcceptsExactlyMadeAddresses(address: string, prefix: U32, hash: Keccak1600)
    ensures CheckAccountAddress(address, prefix, hash) == 1 <==>
            |address| == ADDRESS_LENGTH && exists data: seq<Byte> :: address == MakeAddress(prefix, data, hash)
  {
    hide MakeAddress, DecodeAddr;
    if IsValid(address, prefix, hash) {
      AcceptedIsMade(address, prefix, hash);
    }
    if data: seq<Byte> :| address == MakeAddress(prefix, data, hash) {
      MadeAddressDecodes(prefix, data, hash);
    }
  }

  /** What is in an accepted address: the canonical prefix in front, and behind all else the first four bytes of the
      hash of what is before them. */
  lemma AcceptedParts(address: string, prefix: U32, hash: Keccak1600)
    requires CheckAccountAddress(address, prefix, hash) == 1
    ensures var bytes := Base58.Decode(address);
            && bytes.Some? && |bytes.value| == 69
            && bytes.value[65] == hash(bytes.value[..65])[0] && bytes.value[66] == hash(bytes.value[..65])[1]
            && bytes.value[67] == hash(bytes.value[..65])[2] && bytes.value[68] == hash(bytes.value[..65])[3]
            && Varint.Encode(prefix) <= bytes.value[..65]
  {
    hide Varint.Encode, Varint.Read, Base58.Encode, Base58.Decode, Pow2;
    PayloadIsLongEnough(address);
    AcceptedIsMade(address, prefix, hash);
    var bytes := Base58.Decode(address).value;
    var payload, checksum := bytes[..65], bytes[65..];
    assert checksum == Checksum(payload, hash);
    assert checksum[0] == bytes[65] && checksum[1] == bytes[66] && checksum[2] == bytes[67] && checksum[3] == bytes[68];
    var r := Varint.Read(payload, 0, 64);
    Varint.ReadsExactlyTheEncodings(payload, r.consumed, r.value, 64);
  }
}
