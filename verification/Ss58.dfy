/**
 The SS58 address codec, for any hash function with 64-byte output in the place of blake2b.
 An address is base58(type byte, account bytes, first bytes of hash("SS58PRE", type byte, account bytes)).
 */
module Ss58 {
  import opened Hex
  import Base58

  type Hash = seq<Byte> -> seq<Byte>

  ghost predicate Is64(hash: Hash) {
    forall x :: |hash(x)| == 64
  }

  const PREFIX: seq<Byte> := [83, 83, 53, 56, 80, 82, 69]

  /** The digest of type byte and account. */
  function Digest(hash: Hash, body: seq<Byte>): (h: seq<Byte>)
    requires Is64(hash)
    ensures |h| == 64
  {
    hash(PREFIX + body)
  }

  /** How many checksum bytes an address payload of this length ends in; 0 if the length is not supported. */
  function ChecksumLength(n: nat): (c: nat)
    ensures c > 0 ==> c + 2 <= n
  {
    if n == 3 || n == 4 || n == 6 || n == 10 then 1
    else if n == 5 || n == 7 || n == 11 || n == 35 then 2
    else if n == 8 || n == 12 then 3
    else if n == 9 || n == 13 then 4
    else if n == 14 then 5
    else if n == 15 then 6
    else if n == 16 then 7
    else if n == 17 then 8
    else 0
  }

  /** The checksum length that encoding writes for an account of `n` bytes; 0 if the length is not supported. */
  function WrittenLength(n: nat): nat {
    if n == 32 then 2 else if n == 1 || n == 2 || n == 4 || n == 8 then 1 else 0
  }

  /** The account bytes of a payload, as lower-case hex, or "" if length or checksum is wrong. */
  function DecodePayload(hash: Hash, payload: seq<Byte>): string
    requires Is64(hash)
  {
    var checksumLength := ChecksumLength(|payload|);
    if checksumLength == 0 then ""
    else
      var at := |payload| - checksumLength;
      var h := Digest(hash, payload[..at]);
      if BytesToHex(h[..checksumLength]) != BytesToHex(payload[at..]) then ""
      else BytesToHex(payload[1..at])
  }

  function Decode(hash: Hash, address: string): string
    requires Is64(hash)
  {
    DecodePayload(hash, Base58.Decoded(address))
  }

  function Payload(hash: Hash, body: seq<Byte>, checksumLength: nat): (p: seq<Byte>)
    requires Is64(hash) && checksumLength <= 64
    ensures |p| == |body| + checksumLength && body <= p
  {
    body + Digest(hash, body)[..checksumLength]
  }

  /** The address of a hex account, or "" if the account has an unsupported length. */
  function Encode(hash: Hash, account: string, addressType: int): string
    requires Is64(hash)
  {
    var bytes := HexToBytes(account);
    var checksumLength := WrittenLength(|bytes|);
    if checksumLength == 0 then ""
    else Base58.Encoded(Payload(hash, [addressType % 256] + bytes, checksumLength))
  }

  lemma PayloadParts(hash: Hash, body: seq<Byte>, cl: nat)
    requires Is64(hash) && cl <= 64 && |body| >= 1
    ensures var p := Payload(hash, body, cl);
            p[..|body|] == body && p[|body|..] == Digest(hash, body)[..cl] && p[1..|body|] == body[1..]
  {
  }

  /** Decoding a payload that encoding wrote gives the account back. */
  lemma PayloadRoundTrip(hash: Hash, body: seq<Byte>, cl: nat)
    requires Is64(hash) && |body| >= 1 && 0 < cl <= 64 && ChecksumLength(|body| + cl) == cl
    ensures DecodePayload(hash, Payload(hash, body, cl)) == BytesToHex(body[1..])
  {
    PayloadParts(hash, body, cl);
    var p := Payload(hash, body, cl);
    assert |p| - cl == |body|;
  }

  /** The two length tables agree on what encoding writes. */
  lemma LengthsAgree(n: nat)
    ensures WrittenLength(n) > 0 ==> ChecksumLength(1 + n + WrittenLength(n)) == WrittenLength(n)
  {
  }

  lemma EncodedAccount(hash: Hash, bytes: seq<Byte>, addressType: int)
    requires Is64(hash)
    ensures Encode(hash, BytesToHex(bytes), addressType) ==
            if WrittenLength(|bytes|) == 0 then ""
            else Base58.Encoded(Payload(hash, [addressType % 256] + bytes, WrittenLength(|bytes|)))
  {
    HexRoundTrip(bytes);
  }

  lemma PayloadDecodes(hash: Hash, body: seq<Byte>, bytes: seq<Byte>, cl: nat)
    requires Is64(hash) && |body| == 1 + |bytes| && body[1..] == bytes
    requires cl == WrittenLength(|bytes|) && cl > 0
    ensures Decode(hash, Base58.Encoded(Payload(hash, body, cl))) == BytesToHex(bytes)
  {
    LengthsAgree(|bytes|);
    Base58.DecodeUndoesEncode(Payload(hash, body, cl));
    PayloadRoundTrip(hash, body, cl);
  }

  lemma AccountRoundTrip(hash: Hash, bytes: seq<Byte>, addressType: int)
    requires Is64(hash) && WrittenLength(|bytes|) > 0
    ensures Decode(hash, Encode(hash, BytesToHex(bytes), addressType)) == BytesToHex(bytes)
  {
    var body := [addressType % 256] + bytes;
    assert body[1..] == bytes;
    EncodedAccount(hash, bytes, addressType);
    PayloadDecodes(hash, body, bytes, WrittenLength(|bytes|));
  }

  /** Decoding undoes encoding for every account of 1, 2, 4, 8 or 32 bytes and every address type. */
  lemma DecodeUndoesEncode(hash: Hash, bytes: seq<Byte>, addressType: int)
    requires Is64(hash)
    requires |bytes| == 1 || |bytes| == 2 || |bytes| == 4 || |bytes| == 8 || |bytes| == 32
    ensures Decode(hash, Encode(hash, BytesToHex(bytes), addressType)) == BytesToHex(bytes)
  {
    AccountRoundTrip(hash, bytes, addressType);
  }

  /** An accepted payload is its type byte, its account and the checksum of both. */
  lemma AcceptedPayload(hash: Hash, payload: seq<Byte>)
    requires Is64(hash) && DecodePayload(hash, payload) != ""
    ensures var cl := ChecksumLength(|payload|);
            && cl > 0
            && HexToBytes(DecodePayload(hash, payload)) == payload[1..|payload| - cl]
            && payload == Payload(hash, payload[..|payload| - cl], cl)
  {
    var cl := ChecksumLength(|payload|);
    var at := |payload| - cl;
    HexInjective(Digest(hash, payload[..at])[..cl], payload[at..]);
    HexRoundTrip(payload[1..at]);
    assert payload == payload[..at] + payload[at..];
  }

  /** The lengths for which encoding writes the checksum that the address carries. */
  lemma WrittenLengths(n: nat)
    requires ChecksumLength(n) > 0
    ensures WrittenLength(n - 1 - ChecksumLength(n)) == ChecksumLength(n) <==>
            n == 3 || n == 4 || n == 6 || n == 10 || n == 35
    ensures WrittenLength(n - 1 - ChecksumLength(n)) > 0
  {
  }

  /** Payloads with checksums of different lengths have different addresses. */
  lemma DifferentPayloads(hash: Hash, body: seq<Byte>, cl: nat, wl: nat)
    requires Is64(hash) && cl <= 64 && wl <= 64
    ensures Base58.Encoded(Payload(hash, body, wl)) == Base58.Encoded(Payload(hash, body, cl)) <==> wl == cl
  {
    Base58.DecodeUndoesEncode(Payload(hash, body, cl));
    Base58.DecodeUndoesEncode(Payload(hash, body, wl));
  }

  /**
   An accepted address is the encoding of its account, with its own first byte as type, exactly when
   its payload has 3, 4, 6, 10 or 35 bytes; the other accepted lengths carry longer checksums than
   encoding ever writes.
   */
  lemma EncodeUndoesDecode(hash: Hash, address: string)
    requires Is64(hash) && Decode(hash, address) != ""
    ensures var payload := Base58.Decoded(address);
            payload != [] &&
            (Encode(hash, Decode(hash, address), payload[0]) == address <==>
              |payload| == 3 || |payload| == 4 || |payload| == 6 || |payload| == 10 || |payload| == 35)
  {
    var payload := Base58.Decoded(address);
    AcceptedPayload(hash, payload);
    var cl := ChecksumLength(|payload|);
    var bytes := payload[1..|payload| - cl];
    WrittenLengths(|payload|);
    assert [payload[0] % 256] + bytes == payload[..|payload| - cl];
    DifferentPayloads(hash, payload[..|payload| - cl], cl, WrittenLength(|bytes|));
    assert Base58.Encoded(payload) == address by {
      Base58.EncodeUndoesDecode(address);
    }
  }

  lemma DecodesPayload(hash: Hash, body: seq<Byte>, cl: nat)
    requires Is64(hash) && |body| >= 1 && 0 < cl <= 64 && ChecksumLength(|body| + cl) == cl
    ensures Decode(hash, Base58.Encoded(Payload(hash, body, cl))) == BytesToHex(body[1..])
  {
    Base58.DecodeUndoesEncode(Payload(hash, body, cl));
    PayloadRoundTrip(hash, body, cl);
  }

  /** Every two-byte account with a two-byte checksum (5 bytes in all) is accepted, but encoded differently. */
  lemma LongChecksumIsRewritten(hash: Hash, body: seq<Byte>)
    requires Is64(hash) && |body| == 3
    ensures var address := Base58.Encoded(Payload(hash, body, 2));
            && Decode(hash, address) == BytesToHex(body[1..])
            && Encode(hash, Decode(hash, address), body[0]) != address
  {
    var payload := Payload(hash, body, 2);
    DecodesPayload(hash, body, 2);
    Base58.DecodeUndoesEncode(payload);
    EncodeUndoesDecode(hash, Base58.Encoded(payload));
  }

  /** The checksum lengths of both directions, written out. */
  lemma ChecksumLengths(n: nat)
    ensures ChecksumLength(n) ==
            if n in {3, 4, 6, 10} then 1 else if n in {5, 7, 11, 35} then 2 else if n in {8, 12} then 3
            else if n in {9, 13} then 4 else if n == 14 then 5 else if n == 15 then 6 else if n == 16 then 7
            else if n == 17 then 8 else 0
    ensures WrittenLength(n) == if n == 32 then 2 else if n in {1, 2, 4, 8} then 1 else 0
  {
  }

  /** What is hashed: "SS58PRE" in front of type byte and account. */
  lemma DigestMeans(hash: Hash, body: seq<Byte>)
    requires Is64(hash)
    ensures Digest(hash, body) == hash([83, 83, 53, 56, 80, 82, 69] + body)
  {
  }

  /**
   An address is accepted exactly if its payload has a supported length and ends in the first bytes of the
   hash of "SS58PRE", type byte and account; the answer is then the account.
   */
  lemma AcceptedIff(hash: Hash, address: string)
    requires Is64(hash)
    ensures var p := Base58.Decoded(address);
            var cl := ChecksumLength(|p|);
            Decode(hash, address) ==
              if cl > 0 && p[|p| - cl..] == hash([83, 83, 53, 56, 80, 82, 69] + p[..|p| - cl])[..cl]
              then BytesToHex(p[1..|p| - cl]) else ""
    ensures var p := Base58.Decoded(address);
            var cl := ChecksumLength(|p|);
            Decode(hash, address) != "" <==>
              cl > 0 && p[|p| - cl..] == hash([83, 83, 53, 56, 80, 82, 69] + p[..|p| - cl])[..cl]
  {
    var p := Base58.Decoded(address);
    var cl := ChecksumLength(|p|);
    if cl > 0 {
      var at := |p| - cl;
      DigestMeans(hash, p[..at]);
      HexInjective(Digest(hash, p[..at])[..cl], p[at..]);
    }
  }

  /** The bytes that encoding writes: type byte, account, and the first bytes of that hash. */
  lemma WrittenBytes(hash: Hash, bytes: seq<Byte>, addressType: int)
    requires Is64(hash)
    ensures var cl := WrittenLength(|bytes|);
            var address := Encode(hash, BytesToHex(bytes), addressType);
            if cl == 0 then address == ""
            else
              var body := [addressType % 256] + bytes;
              Base58.Decoded(address) == body + hash([83, 83, 53, 56, 80, 82, 69] + body)[..cl]
  {
    EncodedAccount(hash, bytes, addressType);
    var cl := WrittenLength(|bytes|);
    if cl > 0 {
      var body := [addressType % 256] + bytes;
      DigestMeans(hash, body);
      Base58.DecodeUndoesEncode(Payload(hash, body, cl));
    }
  }
}
