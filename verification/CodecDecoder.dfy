/**
 The decoders as the program runs them: field after field is loaded and compared, and the outputs are written only
 when every check has passed.
 */
module CodecDecoder {
  import opened Bytes
  import opened CodecLayout
  import opened CodecWire
  import Encoder = CodecEncoder
  import Wire = CodecWire

  method LoadU64(source: Bytes, at: nat) returns (value: nat)
    requires at + 8 <= |source|
    ensures value == GetBe(source, at, 8)
  {
    value := 0;
    for i := 0 to 8
      invariant value == GetBe(source, at, i)
    {
      value := 256 * value + source[at + i] as nat;
    }
  }

  // Looks for a byte of the nonce that is not zero.
  method NonceIsZero(record: Bytes) returns (zero: bool)
    requires |record| >= HEADER_SIZE
    ensures zero == IsZero(record[32..48])
  {
    var i := 0;
    while i < 16 && record[32 + i] == 0
      invariant i <= 16 && forall k :: 0 <= k < i ==> record[32..48][k] == 0
    {
      i := i + 1;
    }
    if i < 16 { assert record[32..48][i] != 0; }
    return i == 16;
  }

  method CommonHeader(sha: Sha, record: Bytes, kind: nat, size: nat, now: Word64) returns (e: Error)
    ensures e == Wire.CommonHeader(sha, record, kind, size, now)
  {
    if |record| != HEADER_SIZE + size { return HEADER; }
    if record[0..8] != MAGIC || GetBe(record, 8, 2) != 1 || GetBe(record, 10, 2) != HEADER_SIZE
      || GetBe(record, 12, 2) != kind || GetBe(record, 14, 2) != 0 || GetBe(record, 24, 4) != size
      || GetBe(record, 28, 2) != 0 || GetBe(record, 30, 2) != 0
    {
      return HEADER;
    }
    var zero := NonceIsZero(record);
    if zero { return NONCE; }
    if sha(record[HEADER_SIZE..]) != record[88..120] { return HASH; }
    var deadline := LoadU64(record, 48);
    if deadline <= now || deadline - now > MAX_DEADLINE_WINDOW { return DEADLINE; }
    return OK;
  }

  // On success the request's nonce and deadline; otherwise the outputs are as they were.
  method DecodeNegotiate(sha: Sha, record: Bytes, now: Word64, nonce: array<Byte>, deadline: array<Word64>)
    returns (e: Error)
    requires nonce.Length == 16 && deadline.Length == 1
    modifies nonce, deadline
    ensures e == Wire.DecodeNegotiate(sha, record, now).0
    ensures e == OK ==> (OK, nonce[..], deadline[0]) == Wire.DecodeNegotiate(sha, record, now)
    ensures e != OK ==> nonce[..] == old(nonce[..]) && deadline[0] == old(deadline[0])
  {
    hide Wire.CommonHeader, IsNegotiateBody, GetBe, IsZero;
    e := CommonHeader(sha, record, NEGOTIATE, NEGOTIATE_BODY, now);
    if e != OK { return; }
    var sequence := LoadU64(record, 16);
    ZeroSlice(record[56..88]);
    if sequence != 0 || record[56..88] != Zeros(32) { return SEQUENCE; }
    if !IsNegotiateBody(record[HEADER_SIZE..]) { return BODY; }
    Encoder.CopyBytes(nonce, 0, record[32..48]);
    Pow256Values();
    deadline[0] := LoadU64(record, 48);
    assert nonce[..] == record[32..48];
  }

  method DecodeUnavailable(sha: Sha, record: Bytes, nonce: Nonce, deadline: Word64, requestHash: Digest, now: Word64)
    returns (e: Error)
    ensures e == Wire.DecodeUnavailable(sha, record, nonce, deadline, requestHash, now)
  {
    hide Wire.CommonHeader, IsUnavailableBody, GetBe;
    e := CommonHeader(sha, record, UNAVAILABLE, UNAVAILABLE_BODY, now);
    if e != OK { return; }
    var sequence := LoadU64(record, 16);
    var copied := LoadU64(record, 48);
    if sequence != 1 || copied != deadline || record[32..48] != nonce || record[56..88] != requestHash {
      return SEQUENCE;
    }
    if !IsUnavailableBody(record[HEADER_SIZE..], requestHash) { return BODY; }
  }
}
