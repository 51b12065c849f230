/**
 The decoders' verdicts, read off the record's bytes: which check gives which error, in which order, with the records'
 fixed bytes written out.
 */
module CodecErrors {
  import opened Pieces
  import opened Bytes
  import opened CodecLayout
  import opened CodecWire
  import opened CodecProtocol

  type Checks = seq<(bool, Error)>

  // Check `k` is the first that does not hold.
  predicate FailsAt(checks: Checks, k: int) {
    0 <= k < |checks| && !checks[k].0 && forall j :: 0 <= j < k ==> checks[j].0
  }

  // The verdict is the error of the first check that does not hold, and OK when all hold.
  predicate IsVerdict(e: Error, checks: Checks) {
    && (e == OK <==> forall k :: 0 <= k < |checks| ==> checks[k].0)
    && forall k :: 0 <= k < |checks| && FailsAt(checks, k) ==> e == checks[k].1
  }

  // A record of `size` body bytes with the fixed bytes of its header: magic, version 1, 120 header bytes, its type, no
  // flags; body length, no descriptors, nothing reserved.
  predicate HeaderStands(record: Bytes, kind: Byte, size: Byte) {
    && |record| == 120 + size as nat
    && record[0..16] == [0x57, 0x46, 0x35, 0x30, 0x44, 0x32, 0x32, 0x41, 0, 1, 0, 120, 0, kind, 0, 0]
    && record[24..32] == [0, 0, 0, size, 0, 0, 0, 0]
  }

  predicate NonceStands(record: Bytes) { |record| >= 48 && record[32..48] != Zeros(16) }

  predicate HashStands(sha: Sha, record: Bytes) { |record| >= 120 && sha(record[120..]) == record[88..120] }

  // The deadline is ahead, by at most five seconds.
  predicate DeadlineStands(record: Bytes, now: Word64) {
    |record| >= 56 && now < GetBe(record, 48, 8) <= now + 5000000000
  }

  lemma {:induction false} TwoBytes(s: Bytes, i: nat, v: nat)
    requires i + 2 <= |s| && v < 256
    ensures GetBe(s, i, 2) == v <==> s[i] == 0 && s[i + 1] == v
  {
    assert GetBe(s, i, 2) == 256 * GetBe(s, i, 1) + s[i + 1] as nat;
    assert GetBe(s, i, 1) == 256 * GetBe(s, i, 0) + s[i] as nat;
  }

  lemma {:induction false} FourBytes(s: Bytes, i: nat, v: nat)
    requires i + 4 <= |s| && v < 256
    ensures GetBe(s, i, 4) == v <==> s[i] == 0 && s[i + 1] == 0 && s[i + 2] == 0 && s[i + 3] == v
  {
    TwoBytes(s, i, 0);
    assert GetBe(s, i, 4) == 256 * GetBe(s, i, 3) + s[i + 3] as nat;
    assert GetBe(s, i, 3) == 256 * GetBe(s, i, 2) + s[i + 2] as nat;
  }

  lemma {:induction false} EightBytes(s: Bytes, i: nat, v: nat)
    requires i + 8 <= |s| && v < 256
    ensures GetBe(s, i, 8) == v <==> s[i..i + 8] == Zeros(7) + [v]
  {
    FourBytes(s, i, 0);
    assert GetBe(s, i, 8) == 256 * GetBe(s, i, 7) + s[i + 7] as nat;
    assert GetBe(s, i, 7) == 256 * GetBe(s, i, 6) + s[i + 6] as nat;
    assert GetBe(s, i, 6) == 256 * GetBe(s, i, 5) + s[i + 5] as nat;
    assert GetBe(s, i, 5) == 256 * GetBe(s, i, 4) + s[i + 4] as nat;
    var t, z := s[i..i + 8], Zeros(7) + [v];
    assert t == z <==> forall k :: 0 <= k < 8 ==> t[k] == z[k];
    assert t[0] == s[i] && t[1] == s[i + 1] && t[2] == s[i + 2] && t[3] == s[i + 3];
    assert t[4] == s[i + 4] && t[5] == s[i + 5] && t[6] == s[i + 6] && t[7] == s[i + 7];
  }

  predicate HeaderFieldsRead(record: Bytes, kind: nat, size: nat)
    requires |record| >= HEADER_SIZE
  {
    && record[0..8] == MAGIC && GetBe(record, 8, 2) == 1 && GetBe(record, 10, 2) == HEADER_SIZE
    && GetBe(record, 12, 2) == kind && GetBe(record, 14, 2) == 0 && GetBe(record, 24, 4) == size
    && GetBe(record, 28, 2) == 0 && GetBe(record, 30, 2) == 0
  }

  lemma {:induction false} SixteenBytes(record: Bytes, kind: Byte)
    requires |record| >= 32
    ensures record[0..16] == [0x57, 0x46, 0x35, 0x30, 0x44, 0x32, 0x32, 0x41, 0, 1, 0, 120, 0, kind, 0, 0] <==> (
      && record[0..8] == MAGIC && record[8] == 0 && record[9] == 1 && record[10] == 0 && record[11] == 120
      && record[12] == 0 && record[13] == kind && record[14] == 0 && record[15] == 0)
  {
    var a: Bytes := [0x57, 0x46, 0x35, 0x30, 0x44, 0x32, 0x32, 0x41, 0, 1, 0, 120, 0, kind, 0, 0];
    if record[0..16] == a {
      assert record[0..8] == a[0..8];
      assert record[8] == a[8] && record[9] == a[9] && record[10] == a[10] && record[11] == a[11];
      assert record[12] == a[12] && record[13] == a[13] && record[14] == a[14] && record[15] == a[15];
    } else if record[0..8] == MAGIC {
      assert record[0..16] == record[0..8] + [record[8], record[9], record[10], record[11], record[12], record[13],
        record[14], record[15]];
    }
  }

  lemma {:induction false} NextBytes(record: Bytes, size: Byte)
    requires |record| >= 32
    ensures record[24..32] == [0, 0, 0, size, 0, 0, 0, 0] <==> (
      && record[24] == 0 && record[25] == 0 && record[26] == 0 && record[27] == size
      && record[28] == 0 && record[29] == 0 && record[30] == 0 && record[31] == 0)
  {
    assert record[24..32] == [record[24], record[25], record[26], record[27], record[28], record[29], record[30],
      record[31]];
  }

  lemma {:induction false} FieldsAreBytes(record: Bytes, kind: Byte, size: Byte)
    requires |record| == HEADER_SIZE + size as nat
    ensures HeaderFieldsRead(record, kind as nat, size as nat) <==> HeaderStands(record, kind, size)
  {
    hide GetBe;
    TwoBytes(record, 8, 1);
    TwoBytes(record, 10, 120);
    TwoBytes(record, 12, kind as nat);
    TwoBytes(record, 14, 0);
    FourBytes(record, 24, size as nat);
    TwoBytes(record, 28, 0);
    TwoBytes(record, 30, 0);
    SixteenBytes(record, kind);
    NextBytes(record, size);
  }

  function CommonChecks(sha: Sha, record: Bytes, kind: Byte, size: Byte, now: Word64): (r: Checks)
    ensures |r| == 4
  {
    [(HeaderStands(record, kind, size), HEADER), (NonceStands(record), NONCE), (HashStands(sha, record), HASH),
     (DeadlineStands(record, now), DEADLINE)]
  }

  // The first four checks of either decoder.
  lemma {:induction false} CommonVerdict(sha: Sha, record: Bytes, kind: Byte, size: Byte, now: Word64)
    ensures IsVerdict(CommonHeader(sha, record, kind as nat, size as nat, now),
                      CommonChecks(sha, record, kind, size, now))
  {
    hide IsVerdict;
    CommonInOrder(sha, record, kind, size, now);
    NamesAnError(sha, record, kind, size, now);
    FourChecks(CommonChecks(sha, record, kind, size, now), CommonHeader(sha, record, kind as nat, size as nat, now));
  }

  lemma {:induction false} CommonInOrder(sha: Sha, record: Bytes, kind: Byte, size: Byte, now: Word64)
    ensures var c := CommonChecks(sha, record, kind, size, now);
      CommonHeader(sha, record, kind as nat, size as nat, now)
      == if !c[0].0 then c[0].1 else if !c[1].0 then c[1].1 else if !c[2].0 then c[2].1 else if !c[3].0 then c[3].1
      else OK
  {
    hide HeaderStands, GetBe;
    if |record| == HEADER_SIZE + size as nat {
      FieldsAreBytes(record, kind, size);
      ZeroSlice(record[32..48]);
    } else {
      NotThatLong(record, kind, size);
    }
  }

  lemma {:induction false} FourChecks(checks: Checks, e: Error)
    requires |checks| == 4 && forall k :: 0 <= k < 4 ==> checks[k].1 != OK
    requires e == if !checks[0].0 then checks[0].1 else if !checks[1].0 then checks[1].1
      else if !checks[2].0 then checks[2].1 else if !checks[3].0 then checks[3].1 else OK
    ensures IsVerdict(e, checks)
  {
  }

  lemma {:induction false} NotThatLong(record: Bytes, kind: Byte, size: Byte)
    requires |record| != HEADER_SIZE + size as nat
    ensures !HeaderStands(record, kind, size)
  {
  }

  lemma {:induction false} MoreChecks(common: Checks, more: Checks, e: Error, f: Error)
    requires |more| == 2 && (forall k :: 0 <= k < |common| ==> common[k].1 != OK) && more[0].1 != OK && more[1].1 != OK
    requires IsVerdict(e, common)
    requires f == if e != OK then e else if !more[0].0 then more[0].1 else if !more[1].0 then more[1].1 else OK
    ensures IsVerdict(f, common + more)
  {
    var all := common + more;
    assert all[|common|] == more[0] && all[|common| + 1] == more[1];
    assert forall k :: 0 <= k < |common| ==> all[k] == common[k];
    if e != OK {
      var k :| 0 <= k < |common| && !common[k].0;
      FirstOf(common, k);
    }
    forall k | 0 <= k < |all| && FailsAt(all, k) ensures f == all[k].1 {
      if k < |common| { assert FailsAt(common, k); }
    }
  }

  lemma {:induction false} FirstOf(checks: Checks, k: nat)
    requires k < |checks| && !checks[k].0
    ensures exists j :: 0 <= j <= k && FailsAt(checks, j)
  {
    if j :| 0 <= j < k && !checks[j].0 { FirstOf(checks, j); } else { assert FailsAt(checks, k); }
  }

  // A request comes first and answers nothing; its body is always the same.
  predicate OpensTheRun(record: Bytes) {
    |record| >= 88 && record[16..24] == Zeros(8) && record[56..88] == Zeros(32)
  }

  predicate IsOffer(record: Bytes) {
    && |record| >= 144
    && record[120..132] == [0, 1, 0, 1, 0, 0, 0, 48, 0, 0, 0, 168]
    && record[132..144] == [0, 0, 0, 0, 0, 1, 0, 2, 0, 2, 0, 0]
  }

  lemma {:induction false} LimitBytes(body: Bytes)
    requires |body| == 24
    ensures body[0..12] == [0, 1, 0, 1, 0, 0, 0, 48, 0, 0, 0, 168]
      <==> GetBe(body, 0, 2) == 1 && GetBe(body, 2, 2) == 1 && GetBe(body, 4, 4) == 48 && GetBe(body, 8, 4) == 168
  {
    hide GetBe;
    TwoBytes(body, 0, 1);
    TwoBytes(body, 2, 1);
    FourBytes(body, 4, 48);
    FourBytes(body, 8, 168);
    assert body[0..12] == [body[0], body[1], body[2], body[3], body[4], body[5], body[6], body[7], body[8], body[9],
      body[10], body[11]];
  }

  predicate ExchangeRead(body: Bytes)
    requires |body| == 24
  {
    && GetBe(body, 12, 2) == 0 && GetBe(body, 14, 2) == 0 && GetBe(body, 16, 2) == 1 && GetBe(body, 18, 2) == 2
    && GetBe(body, 20, 2) == 2 && GetBe(body, 22, 2) == 0
  }

  lemma {:induction false} ExchangeBytes(body: Bytes)
    requires |body| == 24
    ensures body[12..24] == [0, 0, 0, 0, 0, 1, 0, 2, 0, 2, 0, 0] <==> ExchangeRead(body)
  {
    hide GetBe;
    TwoBytes(body, 12, 0);
    TwoBytes(body, 14, 0);
    TwoBytes(body, 16, 1);
    TwoBytes(body, 18, 2);
    TwoBytes(body, 20, 2);
    TwoBytes(body, 22, 0);
    assert body[12..24] == [body[12], body[13], body[14], body[15], body[16], body[17], body[18], body[19], body[20],
      body[21], body[22], body[23]];
  }

  lemma {:induction false} OfferIsBody(record: Bytes)
    requires |record| == 144
    ensures IsOffer(record) <==> IsNegotiateBody(record[120..])
  {
    hide GetBe;
    var body := record[120..];
    assert body[0..12] == record[120..132] && body[12..24] == record[132..144];
    LimitBytes(body);
    ExchangeBytes(body);
  }

  // A request's verdict is that of the first of six checks of its bytes: the fixed header, a nonce, the body's hash,
  // the deadline, the first place in the run, the offer.
  lemma {:induction false} RequestVerdict(sha: Sha, record: Bytes, now: Word64)
    ensures IsVerdict(DecodeNegotiate(sha, record, now).0, CommonChecks(sha, record, 1, 24, now)
      + [(OpensTheRun(record), SEQUENCE), (IsOffer(record), BODY)])
  {
    hide GetBe, CommonHeader, IsVerdict, CommonChecks;
    var e := CommonHeader(sha, record, 1, 24, now);
    CommonVerdict(sha, record, 1, 24, now);
    if e == OK {
      EightBytes(record, 16, 0);
      assert Zeros(7) + [0] == Zeros(8);
      ZeroSlice(record[56..88]);
      OfferIsBody(record);
    }
    NamesAnError(sha, record, 1, 24, now);
    MoreChecks(CommonChecks(sha, record, 1, 24, now), [(OpensTheRun(record), SEQUENCE), (IsOffer(record), BODY)], e,
      DecodeNegotiate(sha, record, now).0);
  }

  lemma {:induction false} NamesAnError(sha: Sha, record: Bytes, kind: Byte, size: Byte, now: Word64)
    ensures forall k :: 0 <= k < 4 ==> CommonChecks(sha, record, kind, size, now)[k].1 != OK
  {
  }

  // A response comes second and carries the request's nonce, deadline and packet hash.
  predicate AnswersTheRequest(record: Bytes, nonce: Nonce, deadline: Word64, requestHash: Digest) {
    && |record| >= 88 && record[16..24] == Zeros(7) + [1] && record[32..48] == nonce
    && GetBe(record, 48, 8) == deadline && record[56..88] == requestHash
  }

  predicate IsRefusal(record: Bytes, requestHash: Digest) {
    |record| >= 120 && record[120..] == [0, 1, 0, 1, 0, 0, 0, 1, 0, 0, 0, 0, 0, 0, 0, 0] + requestHash
  }

  lemma {:induction false} RefusalBytes(body: Bytes, requestHash: Digest)
    requires |body| == 48
    ensures IsUnavailableBody(body, requestHash)
      <==> body == [0, 1, 0, 1, 0, 0, 0, 1, 0, 0, 0, 0, 0, 0, 0, 0] + requestHash
  {
    hide GetBe;
    TwoBytes(body, 0, 1);
    TwoBytes(body, 2, 1);
    FourBytes(body, 4, 1);
    EightBytes(body, 8, 0);
    var head: Bytes := [0, 1, 0, 1, 0, 0, 0, 1, 0, 0, 0, 0, 0, 0, 0, 0];
    var t := head + requestHash;
    if IsUnavailableBody(body, requestHash) {
      assert forall k :: 8 <= k < 16 ==> body[k] == body[8..16][k - 8];
      forall k | 0 <= k < 48 ensures body[k] == t[k] {
        if k >= 16 { assert body[k] == body[16..48][k - 16]; }
      }
    }
  }

  // A response's verdict likewise: type 2 and 48 body bytes, an answer to this request, the refusal.
  lemma {:induction false} ResponseVerdict(sha: Sha, record: Bytes, nonce: Nonce, deadline: Word64, requestHash: Digest,
        now: Word64)
    ensures IsVerdict(DecodeUnavailable(sha, record, nonce, deadline, requestHash, now),
      CommonChecks(sha, record, 2, 48, now)
      + [(AnswersTheRequest(record, nonce, deadline, requestHash), SEQUENCE), (IsRefusal(record, requestHash), BODY)])
  {
    hide GetBe, CommonHeader, IsVerdict, CommonChecks;
    var e := CommonHeader(sha, record, 2, 48, now);
    CommonVerdict(sha, record, 2, 48, now);
    if e == OK {
      EightBytes(record, 16, 1);
      RefusalBytes(record[120..], requestHash);
    }
    NamesAnError(sha, record, 2, 48, now);
    MoreChecks(CommonChecks(sha, record, 2, 48, now),
      [(AnswersTheRequest(record, nonce, deadline, requestHash), SEQUENCE), (IsRefusal(record, requestHash), BODY)], e,
      DecodeUnavailable(sha, record, nonce, deadline, requestHash, now));
  }

  // ---- Fixed texts ----

  lemma {:induction false} TextsAre()
    ensures MAGIC == Ascii("WF50D22A") && PACKET_DOMAIN == Ascii("worldforge-ollama-v2-d22a-packet-v1") + [0]
    ensures MAX_RECORD == HEADER_SIZE + UNAVAILABLE_BODY
  {
  }

  // A packet's hash is that of its domain's name, a NUL and the record.
  lemma {:induction false} PacketHashIs(sha: Sha, record: Bytes)
    ensures PacketHash(sha, record) == sha(Ascii("worldforge-ollama-v2-d22a-packet-v1") + ([0] + record))
  {
    TextsAre();
    assert Ascii("worldforge-ollama-v2-d22a-packet-v1") + [0] + record
      == Ascii("worldforge-ollama-v2-d22a-packet-v1") + ([0] + record);
  }

  // ---- Messages ----

  // A received message's verdict: not too long, no descriptors, not empty, a whole header.
  lemma {:induction false} MessageVerdict(m: Message)
    ensures IsVerdict(ReceiveError(m),
      [(|m.bytes| <= 168, TRUNCATED), (!m.rights, ANCILLARY), (m.bytes != [], IO), (|m.bytes| >= 120, HEADER)])
  {
    hide FailsAt;
    FourChecks(
      [(|m.bytes| <= 168, TRUNCATED), (!m.rights, ANCILLARY), (m.bytes != [], IO), (|m.bytes| >= 120, HEADER)],
      ReceiveError(m));
  }
}
