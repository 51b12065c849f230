/**
 The codec's records: a 120-byte header with a body of 24 or 48 bytes, what the encoders write and what
 the decoders accept.  SHA-256 is any function to 32 bytes.
 */
module CodecWire {
  import opened Wrappers
  import opened Pieces
  import opened Bytes
  import opened CodecLayout

  const NEGOTIATION_WINDOW := 2_000_000_000
  const MAX_DEADLINE_WINDOW := 5_000_000_000

  const HEADER_SIZE := 120
  const NEGOTIATE := 1
  const UNAVAILABLE := 2
  const NEGOTIATE_BODY := 24
  const UNAVAILABLE_BODY := 48
  const MAX_RECORD := 168

  const MAGIC: Bytes := [0x57, 0x46, 0x35, 0x30, 0x44, 0x32, 0x32, 0x41]

  datatype Error =
    | OK | ARGUMENT | SOCKET | IO | TRUNCATED | HEADER | TYPE | SEQUENCE | NONCE | DEADLINE | HASH | BODY
    | ANCILLARY | STATE

  type Nonce = n: Bytes | |n| == 16 witness Zeros(16)
  type Digest = d: Bytes | |d| == 32 witness Zeros(32)

  // SHA-256: any function to 32 bytes.
  type Sha = Bytes -> Digest

  predicate IsZero(s: Bytes) { forall i :: 0 <= i < |s| ==> s[i] == 0 }

  // ---- The field tables of the protocol lock ----

  // magic, major, header_len, type, flags, sequence, body_len, fd_count, reserved, nonce, deadline_ns,
  // prior_packet_sha256, body_sha256
  const HEADER_FIELDS: seq<Field> :=
    [Field(0, 8), Field(8, 2), Field(10, 2), Field(12, 2), Field(14, 2), Field(16, 8), Field(24, 4), Field(28, 2),
     Field(30, 2), Field(32, 16), Field(48, 8), Field(56, 32), Field(88, 32)]

  // minimum_major, maximum_major, maximum_body, maximum_record, feature_flags, reserved, negotiate_type,
  // unavailable_type, message_count, fd_count
  const NEGOTIATE_FIELDS: seq<Field> :=
    [Field(0, 2), Field(2, 2), Field(4, 4), Field(8, 4), Field(12, 2), Field(14, 2), Field(16, 2), Field(18, 2),
     Field(20, 2), Field(22, 2)]

  // selected_major, terminal_class, reason, request_sequence, request_packet_sha256
  const UNAVAILABLE_FIELDS: seq<Field> := [Field(0, 2), Field(2, 2), Field(4, 4), Field(8, 8), Field(16, 32)]

  lemma {:induction false} LayoutSize(fields: seq<Field>, values: seq<Bytes>, size: nat)
    requires Fit(fields, values)
    requires (fields, size) in
      {(HEADER_FIELDS, HEADER_SIZE), (NEGOTIATE_FIELDS, NEGOTIATE_BODY), (UNAVAILABLE_FIELDS, UNAVAILABLE_BODY)}
    ensures |Layout(values)| == size
  {
    hide Layout, Tile;
    TablesTile();
    FieldsMakeTheRecord([], fields, values, 0, size);
  }

  lemma {:induction false} TablesTile()
    ensures Tile(HEADER_FIELDS, 0, HEADER_SIZE)
    ensures Tile(NEGOTIATE_FIELDS, 0, NEGOTIATE_BODY)
    ensures Tile(UNAVAILABLE_FIELDS, 0, UNAVAILABLE_BODY)
  {
    hide Tile;
    Chain(HEADER_FIELDS, 0, HEADER_SIZE);
    Chain(NEGOTIATE_FIELDS, 0, NEGOTIATE_BODY);
    Chain(UNAVAILABLE_FIELDS, 0, UNAVAILABLE_BODY);
  }

  // ---- What the encoders write ----

  function HeaderValues(kind: nat, sequence: nat, size: nat, nonce: Nonce, deadline: Word64, prior: Digest,
        hash: Digest)
    : (r: seq<Bytes>)
    ensures Fit(HEADER_FIELDS, r)
  {
    [MAGIC, Be(1, 2), Be(HEADER_SIZE, 2), Be(kind, 2), Be(0, 2), Be(sequence, 8), Be(size, 4), Be(0, 2), Be(0, 2),
     nonce, Be(deadline, 8), prior, hash]
  }

  const MAJOR := 1

  function NegotiateValues(major: nat): (r: seq<Bytes>)
    ensures Fit(NEGOTIATE_FIELDS, r)
  {
    [Be(major, 2), Be(major, 2), Be(48, 4), Be(168, 4), Be(0, 2), Be(0, 2), Be(NEGOTIATE, 2), Be(UNAVAILABLE, 2),
     Be(2, 2), Be(0, 2)]
  }

  function UnavailableValues(requestHash: Digest): (r: seq<Bytes>)
    ensures Fit(UNAVAILABLE_FIELDS, r)
  {
    [Be(1, 2), Be(1, 2), Be(1, 4), Be(0, 8), requestHash]
  }

  function Header(kind: nat, sequence: nat, size: nat, nonce: Nonce, deadline: Word64, prior: Digest,
        hash: Digest): (r: Bytes)
    ensures |r| == HEADER_SIZE
  {
    var values := HeaderValues(kind, sequence, size, nonce, deadline, prior, hash);
    LayoutSize(HEADER_FIELDS, values, HEADER_SIZE);
    Layout(values)
  }

  function NegotiateBody(): (r: Bytes)
    ensures |r| == NEGOTIATE_BODY
  {
    LayoutSize(NEGOTIATE_FIELDS, NegotiateValues(MAJOR), NEGOTIATE_BODY);
    Layout(NegotiateValues(MAJOR))
  }

  function UnavailableBody(requestHash: Digest): (r: Bytes)
    ensures |r| == UNAVAILABLE_BODY
  {
    LayoutSize(UNAVAILABLE_FIELDS, UnavailableValues(requestHash), UNAVAILABLE_BODY);
    Layout(UnavailableValues(requestHash))
  }

  function NegotiateRecord(sha: Sha, nonce: Nonce, deadline: Word64): (r: Bytes)
    ensures |r| == HEADER_SIZE + NEGOTIATE_BODY
  {
    var body := NegotiateBody();
    Header(NEGOTIATE, 0, NEGOTIATE_BODY, nonce, deadline, Zeros(32), sha(body)) + body
  }

  function UnavailableRecord(sha: Sha, nonce: Nonce, deadline: Word64, requestHash: Digest): (r: Bytes)
    ensures |r| == HEADER_SIZE + UNAVAILABLE_BODY
  {
    var body := UnavailableBody(requestHash);
    Header(UNAVAILABLE, 1, UNAVAILABLE_BODY, nonce, deadline, requestHash, sha(body)) + body
  }

  // "worldforge-ollama-v2-d22a-packet-v1" and a separating NUL.
  const PACKET_DOMAIN: Bytes :=
    [0x77, 0x6f, 0x72, 0x6c, 0x64, 0x66, 0x6f, 0x72, 0x67, 0x65, 0x2d, 0x6f, 0x6c, 0x6c, 0x61, 0x6d, 0x61, 0x2d,
     0x76, 0x32, 0x2d, 0x64, 0x32, 0x32, 0x61, 0x2d, 0x70, 0x61, 0x63, 0x6b, 0x65, 0x74, 0x2d, 0x76, 0x31, 0]

  function PacketHash(sha: Sha, record: Bytes): Digest { sha(PACKET_DOMAIN + record) }

  // ---- Deadlines ----

  predicate InWindow(deadline: Word64, now: Word64) { now < deadline && deadline - now <= MAX_DEADLINE_WINDOW }

  // Now plus a window, unless that would not fit in 64 bits.
  function DeadlineFrom(now: Word64, window: nat): (r: Option<Word64>)
    ensures r.Some? ==> r.value == now + window
    ensures r.None? <==> now + window >= U64
  {
    if U64 - 1 - now < window then None else Some(now + window)
  }

  // ---- What the decoders accept ----

  function CommonHeader(sha: Sha, record: Bytes, kind: nat, size: nat, now: Word64): (e: Error)
    ensures e == OK ==> |record| == HEADER_SIZE + size
  {
    if |record| != HEADER_SIZE + size then HEADER
    else if record[0..8] != MAGIC || GetBe(record, 8, 2) != 1 || GetBe(record, 10, 2) != HEADER_SIZE
      || GetBe(record, 12, 2) != kind || GetBe(record, 14, 2) != 0 || GetBe(record, 24, 4) != size
      || GetBe(record, 28, 2) != 0 || GetBe(record, 30, 2) != 0 then HEADER
    else if IsZero(record[32..48]) then NONCE
    else if sha(record[HEADER_SIZE..]) != record[88..120] then HASH
    else if !InWindow(GetBe(record, 48, 8), now) then DEADLINE
    else OK
  }

  predicate IsNegotiateBody(body: Bytes)
    requires |body| == NEGOTIATE_BODY
  {
    && GetBe(body, 0, 2) == 1 && GetBe(body, 2, 2) == 1 && GetBe(body, 4, 4) == 48 && GetBe(body, 8, 4) == 168
    && GetBe(body, 12, 2) == 0 && GetBe(body, 14, 2) == 0 && GetBe(body, 16, 2) == NEGOTIATE
    && GetBe(body, 18, 2) == UNAVAILABLE && GetBe(body, 20, 2) == 2 && GetBe(body, 22, 2) == 0
  }

  predicate IsUnavailableBody(body: Bytes, requestHash: Digest)
    requires |body| == UNAVAILABLE_BODY
  {
    && GetBe(body, 0, 2) == 1 && GetBe(body, 2, 2) == 1 && GetBe(body, 4, 4) == 1 && GetBe(body, 8, 8) == 0
    && body[16..48] == requestHash
  }

  // The request's nonce and deadline.
  function DecodeNegotiate(sha: Sha, record: Bytes, now: Word64): (r: (Error, Nonce, Word64)) {
    var e := CommonHeader(sha, record, NEGOTIATE, NEGOTIATE_BODY, now);
    if e != OK then (e, Zeros(16), 0)
    else if GetBe(record, 16, 8) != 0 || !IsZero(record[56..88]) then (SEQUENCE, Zeros(16), 0)
    else if !IsNegotiateBody(record[HEADER_SIZE..]) then (BODY, Zeros(16), 0)
    else (OK, record[32..48], Pow256Values(); GetBe(record, 48, 8))
  }

  function DecodeUnavailable(sha: Sha, record: Bytes, nonce: Nonce, deadline: Word64, requestHash: Digest,
        now: Word64): Error
  {
    var e := CommonHeader(sha, record, UNAVAILABLE, UNAVAILABLE_BODY, now);
    if e != OK then e
    else if GetBe(record, 16, 8) != 1 || GetBe(record, 48, 8) != deadline || record[32..48] != nonce
      || record[56..88] != requestHash then SEQUENCE
    else if !IsUnavailableBody(record[HEADER_SIZE..], requestHash) then BODY
    else OK
  }

  // ---- The codec is exact ----

  lemma {:induction false} SliceField(s: Bytes, i: nat, j: nat, t: Bytes)
    requires i <= j <= |s|
    ensures s[i..j] == t <==> Spans(s, i, j, t)
  {
    if Spans(s, i, j, t) { assert s[i..j] == t; }
  }

  lemma {:induction false} ZeroSlice(s: Bytes)
    ensures IsZero(s) <==> s == Zeros(|s|)
  {
  }

  // Every header field as the decoders read it, against the bytes the encoders write.
  lemma {:induction false} HeaderIsItsFields(record: Bytes, kind: nat, sequence: nat, size: nat, nonce: Nonce,
        deadline: Word64, prior: Digest, hash: Digest)
    requires |record| >= HEADER_SIZE && kind < U16 && sequence < U64 && size < U32
    ensures (
      Occurs(record, 0, Header(kind, sequence, size, nonce, deadline, prior, hash)) <==> (
        && record[0..8] == MAGIC && GetBe(record, 8, 2) == 1 && GetBe(record, 10, 2) == HEADER_SIZE
        && GetBe(record, 12, 2) == kind && GetBe(record, 14, 2) == 0 && GetBe(record, 16, 8) == sequence
        && GetBe(record, 24, 4) == size && GetBe(record, 28, 2) == 0 && GetBe(record, 30, 2) == 0
        && record[32..48] == nonce && GetBe(record, 48, 8) == deadline
        && record[56..88] == prior && record[88..120] == hash))
  {
    hide Occurs, Layout, Tile, Be, GetBe;
    var values := HeaderValues(kind, sequence, size, nonce, deadline, prior, hash);
    TablesTile();
    FieldsMakeTheRecord(record, HEADER_FIELDS, values, 0, HEADER_SIZE);
    Pow256Values();
    SliceField(record, 0, 8, MAGIC);
    NumberIsItsBytes(record, 8, 2, 1);
    NumberIsItsBytes(record, 10, 2, HEADER_SIZE);
    NumberIsItsBytes(record, 12, 2, kind);
    NumberIsItsBytes(record, 14, 2, 0);
    NumberIsItsBytes(record, 16, 8, sequence);
    NumberIsItsBytes(record, 24, 4, size);
    NumberIsItsBytes(record, 28, 2, 0);
    NumberIsItsBytes(record, 30, 2, 0);
    SliceField(record, 32, 48, nonce);
    NumberIsItsBytes(record, 48, 8, deadline);
    SliceField(record, 56, 88, prior);
    SliceField(record, 88, 120, hash);
    ThirteenFields(record, values);
  }

  lemma {:induction false} ThirteenFields(record: Bytes, v: seq<Bytes>)
    requires |v| == 13
    ensures (
      (forall i :: 0 <= i < 13 ==> Occurs(record, HEADER_FIELDS[i].offset, v[i])) <==> (
        && Occurs(record, 0, v[0]) && Occurs(record, 8, v[1]) && Occurs(record, 10, v[2]) && Occurs(record, 12, v[3])
        && Occurs(record, 14, v[4]) && Occurs(record, 16, v[5]) && Occurs(record, 24, v[6]) && Occurs(record, 28, v[7])
        && Occurs(record, 30, v[8]) && Occurs(record, 32, v[9]) && Occurs(record, 48, v[10])
        && Occurs(record, 56, v[11]) && Occurs(record, 88, v[12])))
  {
    hide Occurs;
    if forall i :: 0 <= i < 13 ==> Occurs(record, HEADER_FIELDS[i].offset, v[i]) {
      assert Occurs(record, HEADER_FIELDS[0].offset, v[0]) && Occurs(record, HEADER_FIELDS[1].offset, v[1]);
      assert Occurs(record, HEADER_FIELDS[2].offset, v[2]) && Occurs(record, HEADER_FIELDS[3].offset, v[3]);
      assert Occurs(record, HEADER_FIELDS[4].offset, v[4]) && Occurs(record, HEADER_FIELDS[5].offset, v[5]);
      assert Occurs(record, HEADER_FIELDS[6].offset, v[6]) && Occurs(record, HEADER_FIELDS[7].offset, v[7]);
      assert Occurs(record, HEADER_FIELDS[8].offset, v[8]) && Occurs(record, HEADER_FIELDS[9].offset, v[9]);
      assert Occurs(record, HEADER_FIELDS[10].offset, v[10]) && Occurs(record, HEADER_FIELDS[11].offset, v[11]);
      assert Occurs(record, HEADER_FIELDS[12].offset, v[12]);
    }
  }

  lemma {:induction false} NegotiateBodyIsItsFields(body: Bytes)
    requires |body| == NEGOTIATE_BODY
    ensures body == NegotiateBody() <==> IsNegotiateBody(body)
  {
    hide Occurs, Layout, Tile, Be, GetBe;
    var v := NegotiateValues(MAJOR);
    TablesTile();
    FieldsMakeTheRecord(body, NEGOTIATE_FIELDS, v, 0, NEGOTIATE_BODY);
    Pow256Values();
    NumberIsItsBytes(body, 0, 2, 1);
    NumberIsItsBytes(body, 2, 2, 1);
    NumberIsItsBytes(body, 4, 4, 48);
    NumberIsItsBytes(body, 8, 4, 168);
    NumberIsItsBytes(body, 12, 2, 0);
    NumberIsItsBytes(body, 14, 2, 0);
    NumberIsItsBytes(body, 16, 2, NEGOTIATE);
    NumberIsItsBytes(body, 18, 2, UNAVAILABLE);
    NumberIsItsBytes(body, 20, 2, 2);
    NumberIsItsBytes(body, 22, 2, 0);
    WholeBody(body, Layout(v));
    if body == Layout(v) {
      assert Occurs(body, NEGOTIATE_FIELDS[0].offset, v[0]) && Occurs(body, NEGOTIATE_FIELDS[1].offset, v[1]);
      assert Occurs(body, NEGOTIATE_FIELDS[2].offset, v[2]) && Occurs(body, NEGOTIATE_FIELDS[3].offset, v[3]);
      assert Occurs(body, NEGOTIATE_FIELDS[4].offset, v[4]) && Occurs(body, NEGOTIATE_FIELDS[5].offset, v[5]);
      assert Occurs(body, NEGOTIATE_FIELDS[6].offset, v[6]) && Occurs(body, NEGOTIATE_FIELDS[7].offset, v[7]);
      assert Occurs(body, NEGOTIATE_FIELDS[8].offset, v[8]) && Occurs(body, NEGOTIATE_FIELDS[9].offset, v[9]);
    }
  }

  lemma {:induction false} WholeBody(body: Bytes, t: Bytes)
    requires |body| == |t|
    ensures body == t <==> Occurs(body, 0, t)
  {
    if Occurs(body, 0, t) { SpansAll(body, t); }
  }

  lemma {:induction false} UnavailableBodyIsItsFields(body: Bytes, requestHash: Digest)
    requires |body| == UNAVAILABLE_BODY
    ensures body == UnavailableBody(requestHash) <==> IsUnavailableBody(body, requestHash)
  {
    hide Occurs, Layout, Tile, Be, GetBe;
    var v := UnavailableValues(requestHash);
    TablesTile();
    FieldsMakeTheRecord(body, UNAVAILABLE_FIELDS, v, 0, UNAVAILABLE_BODY);
    Pow256Values();
    NumberIsItsBytes(body, 0, 2, 1);
    NumberIsItsBytes(body, 2, 2, 1);
    NumberIsItsBytes(body, 4, 4, 1);
    NumberIsItsBytes(body, 8, 8, 0);
    SliceField(body, 16, 48, requestHash);
    WholeBody(body, Layout(v));
    if body == Layout(v) {
      assert Occurs(body, UNAVAILABLE_FIELDS[0].offset, v[0]) && Occurs(body, UNAVAILABLE_FIELDS[1].offset, v[1]);
      assert Occurs(body, UNAVAILABLE_FIELDS[2].offset, v[2]) && Occurs(body, UNAVAILABLE_FIELDS[3].offset, v[3]);
      assert Occurs(body, UNAVAILABLE_FIELDS[4].offset, v[4]);
    }
  }

  lemma {:induction false} HeadAndBody(record: Bytes, h: Bytes, b: Bytes)
    requires |h| == HEADER_SIZE
    ensures record == h + b <==> |record| >= HEADER_SIZE && Occurs(record, 0, h) && record[HEADER_SIZE..] == b
  {
    if |record| >= HEADER_SIZE && Occurs(record, 0, h) && record[HEADER_SIZE..] == b {
      assert record[..HEADER_SIZE] == h by { SliceField(record, 0, HEADER_SIZE, h); }
      assert record == record[..HEADER_SIZE] + record[HEADER_SIZE..];
    }
  }

  // A request is accepted exactly when it is, byte for byte, the request the encoder writes for the nonce
  // and deadline read from it, with a nonzero nonce and a deadline inside the window.
  lemma {:induction false} NegotiateIsExact(sha: Sha, record: Bytes, now: Word64)
    ensures var d := DecodeNegotiate(sha, record, now);
      (d.0 == OK ==> record == NegotiateRecord(sha, d.1, d.2) && !IsZero(d.1) && InWindow(d.2, now))
    ensures forall nonce: Nonce, deadline: Word64 ::
      (record == NegotiateRecord(sha, nonce, deadline) && !IsZero(nonce) && InWindow(deadline, now)
       ==> DecodeNegotiate(sha, record, now) == (OK, nonce, deadline))
  {
    hide Occurs, Layout, Tile, Be, GetBe, Header, InWindow, IsNegotiateBody;
    var d := DecodeNegotiate(sha, record, now);
    if d.0 == OK {
      Pow256Values();
      var body := record[HEADER_SIZE..];
      NegotiateBodyIsItsFields(body);
      ZeroSlice(record[56..88]);
      HeaderIsItsFields(record, NEGOTIATE, 0, NEGOTIATE_BODY, d.1, d.2, Zeros(32), sha(body));
      HeadAndBody(record, Header(NEGOTIATE, 0, NEGOTIATE_BODY, d.1, d.2, Zeros(32), sha(body)), body);
    }
    forall nonce: Nonce, deadline: Word64 |
      record == NegotiateRecord(sha, nonce, deadline) && !IsZero(nonce) && InWindow(deadline, now)
      ensures DecodeNegotiate(sha, record, now) == (OK, nonce, deadline)
    {
      NegotiateReadsBack(sha, nonce, deadline, now);
    }
  }

  lemma {:induction false} NegotiateReadsBack(sha: Sha, nonce: Nonce, deadline: Word64, now: Word64)
    requires !IsZero(nonce) && InWindow(deadline, now)
    ensures DecodeNegotiate(sha, NegotiateRecord(sha, nonce, deadline), now) == (OK, nonce, deadline)
  {
    hide Occurs, Layout, Tile, Be, GetBe, Header, InWindow, IsZero, IsNegotiateBody, IsUnavailableBody;
    var body := NegotiateBody();
    var h := Header(NEGOTIATE, 0, NEGOTIATE_BODY, nonce, deadline, Zeros(32), sha(body));
    var record := h + body;
    assert record[HEADER_SIZE..] == body;
    HeadAndBody(record, h, body);
    NegotiateBodyIsItsFields(body);
    HeaderIsItsFields(record, NEGOTIATE, 0, NEGOTIATE_BODY, nonce, deadline, Zeros(32), sha(body));
    ZeroSlice(record[56..88]);
  }

  // A response is accepted exactly when it is, byte for byte, the response the encoder writes for this
  // request's nonce, deadline and hash, with a nonzero nonce and a deadline inside the window.
  lemma {:induction false} UnavailableIsExact(sha: Sha, record: Bytes, nonce: Nonce, deadline: Word64,
        requestHash: Digest, now: Word64)
    ensures (
      DecodeUnavailable(sha, record, nonce, deadline, requestHash, now) == OK
      <==> record == UnavailableRecord(sha, nonce, deadline, requestHash) && !IsZero(nonce) && InWindow(deadline, now))
  {
    hide Occurs, Layout, Tile, Be, GetBe, Header, InWindow, IsZero, IsNegotiateBody, IsUnavailableBody;
    var body := UnavailableBody(requestHash);
    var h := Header(UNAVAILABLE, 1, UNAVAILABLE_BODY, nonce, deadline, requestHash, sha(body));
    HeadAndBody(record, h, body);
    if |record| == HEADER_SIZE + UNAVAILABLE_BODY {
      UnavailableBodyIsItsFields(record[HEADER_SIZE..], requestHash);
      HeaderIsItsFields(record, UNAVAILABLE, 1, UNAVAILABLE_BODY, nonce, deadline, requestHash, sha(body));
    }
  }
}
