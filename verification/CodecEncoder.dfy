/**
 The encoders as the program runs them: stores into a zeroed 168-byte buffer, the body hash last.  Each
 store is one field of the tables, so after the k-th the buffer holds the first k fields and zeros.
 */
module CodecEncoder {
  import opened Bytes
  import opened CodecLayout
  import opened CodecWire

  method ZeroBytes(target: array<Byte>)
    modifies target
    ensures target[..] == Zeros(target.Length)
  {
    for i := 0 to target.Length
      invariant forall k :: 0 <= k < i ==> target[k] == 0
    {
      target[i] := 0;
    }
  }

  method CopyBytes(target: array<Byte>, at: nat, source: Bytes)
    requires at + |source| <= target.Length
    modifies target
    ensures target[..] == Put(old(target[..]), at, source)
  {
    for i := 0 to |source|
      invariant forall k :: 0 <= k < i ==> target[at + k] == source[k]
      invariant forall k :: 0 <= k < target.Length && !(at <= k < at + i) ==> target[k] == old(target[k])
    {
      target[at + i] := source[i];
    }
    forall k | at <= k < at + |source| ensures target[k] == source[k - at] {
      assert target[at + (k - at)] == source[k - at];
    }
  }

  method StoreU16(target: array<Byte>, at: nat, value: nat)
    requires at + 2 <= target.Length && value < U16
    modifies target
    ensures target[..] == Put(old(target[..]), at, Be(value, 2))
  {
    target[at] := value / 256;
    target[at + 1] := value % 256;
    assert Be(value, 2) == [value / 256, value % 256] by { assert Be(value / 256, 1) == [value / 256]; }
  }

  method StoreU32(target: array<Byte>, at: nat, value: nat)
    requires at + 4 <= target.Length && value < U32
    modifies target
    ensures target[..] == Put(old(target[..]), at, Be(value, 4))
  {
    target[at] := value / 16777216;
    target[at + 1] := value / 65536 % 256;
    target[at + 2] := value / 256 % 256;
    target[at + 3] := value % 256;
    FourDigits(value);
  }

  lemma {:induction false} FourDigits(value: nat)
    requires value < U32
    ensures Be(value, 4) == [value / 16777216, value / 65536 % 256, value / 256 % 256, value % 256]
  {
    assert value / 256 / 256 == value / 65536 && value / 256 / 256 / 256 == value / 16777216;
    assert Be(value / 16777216, 1) == [value / 16777216];
    assert Be(value / 65536, 2) == [value / 16777216, value / 65536 % 256];
    assert Be(value / 256, 3) == [value / 16777216, value / 65536 % 256, value / 256 % 256];
  }

  // The low byte goes to the end, then the value is shifted.
  method StoreU64(target: array<Byte>, at: nat, value: nat)
    requires at + 8 <= target.Length && value < U64
    modifies target
    ensures target[..] == Put(old(target[..]), at, Be(value, 8))
  {
    hide Be, Put;
    var rest := value;
    NoDigits(0);
    for i := 0 to 8
      invariant Be(rest, 8 - i) + target[at + 8 - i..at + 8] == Be(value, 8)
      invariant forall k :: 0 <= k < target.Length && !(at + 8 - i <= k < at + 8) ==> target[k] == old(target[k])
    {
      ghost var was := target[..];
      target[at + 7 - i] := rest % 256;
      OneByteMore(was, target[..], at + 7 - i, at + 8);
      LastDigit(rest, 8 - i, was[at + 8 - i..at + 8]);
      rest := rest / 256;
    }
    NoDigits(rest);
    assert target[at..at + 8] == Be(value, 8);
    PutIs(old(target[..]), target[..], at, Be(value, 8));
  }

  lemma {:induction false} PutIs(was: Bytes, now: Bytes, at: nat, s: Bytes)
    requires |now| == |was| && at + |s| <= |was| && now[at..at + |s|] == s
    requires forall k :: 0 <= k < |was| && !(at <= k < at + |s|) ==> now[k] == was[k]
    ensures now == Put(was, at, s)
  {
  }

  lemma {:induction false} OneByteMore(was: Bytes, now: Bytes, k: nat, end: nat)
    requires k < end <= |was| && |now| == |was| && now == was[k := now[k]]
    ensures now[k..end] == [now[k]] + was[k + 1..end]
  {
  }

  lemma {:induction false} NoDigits(v: nat)
    ensures Be(v, 0) == []
  {
  }

  lemma {:induction false} LastDigit(v: nat, n: nat, done: Bytes)
    requires n > 0
    ensures Be(v, n) + done == Be(v / 256, n - 1) + ([v % 256] + done)
  {
    Associate(Be(v / 256, n - 1), [v % 256], done);
  }

  // The first k fields of the table are in place and the rest of the buffer is zero.
  ghost predicate Written(buffer: Bytes, fields: seq<Field>, values: seq<Bytes>, end: nat, k: nat) {
    && Tile(fields, 0, end) && Fit(fields, values) && k <= |values| && end <= |buffer|
    && |Layout(values[..k])| <= |buffer| && buffer == Page(Layout(values[..k]), |buffer|)
  }

  ghost predicate IsNext(fields: seq<Field>, values: seq<Bytes>, k: nat, at: nat, value: Bytes) {
    k < |fields| && k < |values| && fields[k] == Field(at, |value|) && values[k] == value
  }

  // One store of the next field keeps the picture; a zero field needs no store.
  lemma {:induction false} Stored(was: Bytes, fields: seq<Field>, values: seq<Bytes>, end: nat, k: nat, at: nat,
        value: Bytes)
    requires Written(was, fields, values, end, k) && IsNext(fields, values, k, at, value)
    ensures at + |value| <= |was|
    ensures Written(Put(was, at, value), fields, values, end, k + 1)
    ensures value == Zeros(|value|) ==> Written(was, fields, values, end, k + 1)
  {
    hide Tile, Layout, Page, Put;
    FieldWritten(fields, values, k, end, |was|);
  }

  method FieldU16(target: array<Byte>, at: nat, value: nat,
      ghost fields: seq<Field>, ghost values: seq<Bytes>, ghost end: nat, ghost k: nat)
    requires value < U16 && Written(target[..], fields, values, end, k) && IsNext(fields, values, k, at, Be(value, 2))
    modifies target
    ensures Written(target[..], fields, values, end, k + 1)
  {
    hide Written, IsNext, Put;
    Stored(target[..], fields, values, end, k, at, Be(value, 2));
    StoreU16(target, at, value);
  }

  method FieldU32(target: array<Byte>, at: nat, value: nat,
      ghost fields: seq<Field>, ghost values: seq<Bytes>, ghost end: nat, ghost k: nat)
    requires value < U32 && Written(target[..], fields, values, end, k) && IsNext(fields, values, k, at, Be(value, 4))
    modifies target
    ensures Written(target[..], fields, values, end, k + 1)
  {
    hide Written, IsNext, Put;
    Stored(target[..], fields, values, end, k, at, Be(value, 4));
    StoreU32(target, at, value);
  }

  method FieldU64(target: array<Byte>, at: nat, value: nat,
      ghost fields: seq<Field>, ghost values: seq<Bytes>, ghost end: nat, ghost k: nat)
    requires value < U64 && Written(target[..], fields, values, end, k) && IsNext(fields, values, k, at, Be(value, 8))
    modifies target
    ensures Written(target[..], fields, values, end, k + 1)
  {
    hide Written, IsNext, Put;
    Stored(target[..], fields, values, end, k, at, Be(value, 8));
    StoreU64(target, at, value);
  }

  method FieldBytes(target: array<Byte>, at: nat, value: Bytes,
      ghost fields: seq<Field>, ghost values: seq<Bytes>, ghost end: nat, ghost k: nat)
    requires Written(target[..], fields, values, end, k) && IsNext(fields, values, k, at, value)
    modifies target
    ensures Written(target[..], fields, values, end, k + 1)
  {
    hide Written, IsNext, Put;
    Stored(target[..], fields, values, end, k, at, value);
    CopyBytes(target, at, value);
  }

  lemma {:induction false} NextInHeader(kind: nat, sequence: nat, size: nat, nonce: Nonce, deadline: Word64,
        prior: Digest)
    ensures var v := HeaderValues(kind, sequence, size, nonce, deadline, prior, Zeros(32)); var f := HEADER_FIELDS;
      && IsNext(f, v, 0, 0, MAGIC) && IsNext(f, v, 1, 8, Be(1, 2)) && IsNext(f, v, 2, 10, Be(HEADER_SIZE, 2))
      && IsNext(f, v, 3, 12, Be(kind, 2)) && IsNext(f, v, 4, 14, Be(0, 2)) && IsNext(f, v, 5, 16, Be(sequence, 8))
      && IsNext(f, v, 6, 24, Be(size, 4)) && IsNext(f, v, 7, 28, Be(0, 2)) && IsNext(f, v, 8, 30, Be(0, 2))
      && IsNext(f, v, 9, 32, nonce) && IsNext(f, v, 10, 48, Be(deadline, 8)) && IsNext(f, v, 11, 56, prior)
      && IsNext(f, v, 12, 88, Zeros(32))
  {
    hide Be;
  }

  method WriteHeader(target: array<Byte>, kind: nat, sequence: nat, size: nat, nonce: Nonce, deadline: Word64,
        prior: Digest)
    requires target.Length == MAX_RECORD
    requires kind < U16 && sequence < U64 && size < U32
    modifies target
    ensures var values := HeaderValues(kind, sequence, size, nonce, deadline, prior, Zeros(32));
      Written(target[..], HEADER_FIELDS, values, HEADER_SIZE, 13)
  {
    hide Tile, Be, Written, IsNext, HeaderValues;
    ghost var v := HeaderValues(kind, sequence, size, nonce, deadline, prior, Zeros(32));
    ghost var f := HEADER_FIELDS;
    NextInHeader(kind, sequence, size, nonce, deadline, prior);
    TablesTile();
    ZeroIsZeros(2);
    ZeroBytes(target);
    Blank(target[..], f, v, HEADER_SIZE);
    FieldBytes(target, 0, MAGIC, f, v, HEADER_SIZE, 0);
    FieldU16(target, 8, 1, f, v, HEADER_SIZE, 1);
    FieldU16(target, 10, HEADER_SIZE, f, v, HEADER_SIZE, 2);
    FieldU16(target, 12, kind, f, v, HEADER_SIZE, 3);
    Stored(target[..], f, v, HEADER_SIZE, 4, 14, Be(0, 2));
    FieldU64(target, 16, sequence, f, v, HEADER_SIZE, 5);
    FieldU32(target, 24, size, f, v, HEADER_SIZE, 6);
    Stored(target[..], f, v, HEADER_SIZE, 7, 28, Be(0, 2));
    Stored(target[..], f, v, HEADER_SIZE, 8, 30, Be(0, 2));
    FieldBytes(target, 32, nonce, f, v, HEADER_SIZE, 9);
    FieldU64(target, 48, deadline, f, v, HEADER_SIZE, 10);
    FieldBytes(target, 56, prior, f, v, HEADER_SIZE, 11);
    Stored(target[..], f, v, HEADER_SIZE, 12, 88, Zeros(32));
  }

  lemma {:induction false} Blank(buffer: Bytes, fields: seq<Field>, values: seq<Bytes>, end: nat)
    requires buffer == Zeros(|buffer|) && Tile(fields, 0, end) && Fit(fields, values) && end <= |buffer|
    ensures Written(buffer, fields, values, end, 0)
  {
  }

  // A header table followed by a body table, the body's offsets counted from the end of the header.
  function Shift(fields: seq<Field>, base: nat): (r: seq<Field>)
    ensures |r| == |fields| && forall i :: 0 <= i < |r| ==> r[i] == Field(fields[i].offset + base, fields[i].size)
  {
    seq(|fields|, i requires 0 <= i < |fields| => Field(fields[i].offset + base, fields[i].size))
  }

  lemma {:induction false} ShiftTiles(fields: seq<Field>, start: nat, end: nat, base: nat)
    requires Tile(fields, start, end)
    ensures Tile(Shift(fields, base), start + base, end + base)
    decreases |fields|
  {
    if fields != [] {
      ShiftTiles(fields[1..], start + fields[0].size, end, base);
      assert Shift(fields, base)[1..] == Shift(fields[1..], base);
    }
  }

  lemma {:induction false} TileConcat(a: seq<Field>, b: seq<Field>, start: nat, mid: nat, end: nat)
    requires Tile(a, start, mid) && Tile(b, mid, end)
    ensures Tile(a + b, start, end)
    decreases |a|
  {
    if a == [] {
      assert a + b == b;
    } else {
      TileConcat(a[1..], b, start + a[0].size, mid, end);
      assert (a + b)[1..] == a[1..] + b;
    }
  }

  // Header and body as one table.
  lemma {:induction false} BodyFollows(buffer: Bytes, header: seq<Bytes>, bodyFields: seq<Field>, body: seq<Bytes>,
        size: nat)
    requires Fit(bodyFields, body) && Tile(bodyFields, 0, size) && HEADER_SIZE + size <= |buffer|
    requires Written(buffer, HEADER_FIELDS, header, HEADER_SIZE, 13)
    ensures Written(buffer, HEADER_FIELDS + Shift(bodyFields, HEADER_SIZE), header + body, HEADER_SIZE + size, 13)
  {
    hide Tile, Layout, Page;
    TablesTile();
    ShiftTiles(bodyFields, 0, size, HEADER_SIZE);
    TileConcat(HEADER_FIELDS, Shift(bodyFields, HEADER_SIZE), 0, HEADER_SIZE, HEADER_SIZE + size);
    assert (header + body)[..13] == header[..13];
  }

  lemma {:induction false} NextInBody(header: seq<Bytes>, fields: seq<Field>, body: seq<Bytes>, k: nat, at: nat,
        value: Bytes)
    requires |header| == 13 && IsNext(fields, body, k, at, value)
    ensures IsNext(HEADER_FIELDS + Shift(fields, HEADER_SIZE), header + body, 13 + k, HEADER_SIZE + at, value)
  {
  }

  lemma {:induction false} NextInNegotiate(header: seq<Bytes>)
    requires |header| == 13
    ensures var v := header + NegotiateValues(MAJOR); var f := HEADER_FIELDS + Shift(NEGOTIATE_FIELDS, HEADER_SIZE);
      && IsNext(f, v, 13, 120, Be(1, 2)) && IsNext(f, v, 14, 122, Be(1, 2)) && IsNext(f, v, 15, 124, Be(48, 4))
      && IsNext(f, v, 16, 128, Be(168, 4)) && IsNext(f, v, 17, 132, Be(0, 2)) && IsNext(f, v, 18, 134, Be(0, 2))
      && IsNext(f, v, 19, 136, Be(NEGOTIATE, 2)) && IsNext(f, v, 20, 138, Be(UNAVAILABLE, 2))
      && IsNext(f, v, 21, 140, Be(2, 2)) && IsNext(f, v, 22, 142, Be(0, 2))
  {
    hide Be, Shift;
    var f, v := NEGOTIATE_FIELDS, NegotiateValues(MAJOR);
    NextInBody(header, f, v, 0, 0, Be(1, 2));
    NextInBody(header, f, v, 1, 2, Be(1, 2));
    NextInBody(header, f, v, 2, 4, Be(48, 4));
    NextInBody(header, f, v, 3, 8, Be(168, 4));
    NextInBody(header, f, v, 4, 12, Be(0, 2));
    NextInBody(header, f, v, 5, 14, Be(0, 2));
    NextInBody(header, f, v, 6, 16, Be(NEGOTIATE, 2));
    NextInBody(header, f, v, 7, 18, Be(UNAVAILABLE, 2));
    NextInBody(header, f, v, 8, 20, Be(2, 2));
    NextInBody(header, f, v, 9, 22, Be(0, 2));
  }

  lemma {:induction false} NextInUnavailable(header: seq<Bytes>, requestHash: Digest)
    requires |header| == 13
    ensures var v := header + UnavailableValues(requestHash);
      var f := HEADER_FIELDS + Shift(UNAVAILABLE_FIELDS, HEADER_SIZE);
      && IsNext(f, v, 13, 120, Be(1, 2)) && IsNext(f, v, 14, 122, Be(1, 2)) && IsNext(f, v, 15, 124, Be(1, 4))
      && IsNext(f, v, 16, 128, Be(0, 8)) && IsNext(f, v, 17, 136, requestHash)
  {
    hide Be, Shift;
    var f, v := UNAVAILABLE_FIELDS, UnavailableValues(requestHash);
    NextInBody(header, f, v, 0, 0, Be(1, 2));
    NextInBody(header, f, v, 1, 2, Be(1, 2));
    NextInBody(header, f, v, 2, 4, Be(1, 4));
    NextInBody(header, f, v, 3, 8, Be(0, 8));
    NextInBody(header, f, v, 4, 16, requestHash);
  }

  // The body hash goes into its zeroed field, computed from the body bytes in the buffer.
  method SealBody(sha: Sha, target: array<Byte>, size: nat, ghost header: seq<Bytes>, ghost body: seq<Bytes>,
      ghost fields: seq<Field>)
    requires Fit(HEADER_FIELDS, header) && header[12] == Zeros(32)
    requires |Layout(body)| == size && HEADER_SIZE + size <= target.Length
    requires Written(target[..], fields, header + body, HEADER_SIZE + size, 13 + |body|)
    modifies target
    ensures |Layout(header[12 := sha(Layout(body))])| == HEADER_SIZE
    ensures target[..] == Page(Layout(header[12 := sha(Layout(body))]) + Layout(body), target.Length)
  {
    hide Tile, Put, Be, Layout, Page;
    ghost var head := Layout(header[..12]);
    ghost var sealed := header[12 := sha(Layout(body))];
    assert (header + body)[..13 + |body|] == header + body;
    assert sealed[..12] == header[..12];
    LayoutConcat(header, body);
    LastField(header);
    LastField(sealed);
    TablesTile();
    OffsetOf(HEADER_FIELDS, header, 12, 0, HEADER_SIZE);
    HashGoesIn(head, Layout(body), sha(Layout(body)), target.Length);
    var hash := sha(target[HEADER_SIZE..HEADER_SIZE + size]);
    CopyBytes(target, 88, hash);
  }

  lemma {:induction false} LastField(values: seq<Bytes>)
    requires |values| == 13
    ensures Layout(values) == Layout(values[..12]) + values[12]
  {
    LayoutConcat(values[..12], [values[12]]);
    assert values[..12] + [values[12]] == values;
  }

  lemma {:induction false} HashGoesIn(head: Bytes, body: Bytes, hash: Digest, length: nat)
    requires |head| == 88 && HEADER_SIZE + |body| <= length
    ensures Page(head + Zeros(32) + body, length)[HEADER_SIZE..HEADER_SIZE + |body|] == body
    ensures Put(Page(head + Zeros(32) + body, length), 88, hash) == Page(head + hash + body, length)
  {
  }

  method WriteNegotiateBody(output: array<Byte>, ghost header: seq<Bytes>)
    requires |header| == 13 && output.Length == MAX_RECORD
    requires Written(output[..], HEADER_FIELDS + Shift(NEGOTIATE_FIELDS, HEADER_SIZE), header + NegotiateValues(MAJOR),
      144, 13)
    modifies output
    ensures Written(output[..], HEADER_FIELDS + Shift(NEGOTIATE_FIELDS, HEADER_SIZE), header + NegotiateValues(MAJOR),
      144, 23)
  {
    hide Written, IsNext, Be, Shift, UnavailableValues;
    ghost var v := header + NegotiateValues(MAJOR);
    ghost var f := HEADER_FIELDS + Shift(NEGOTIATE_FIELDS, HEADER_SIZE);
    NextInNegotiate(header);
    FieldU16(output, 120, 1, f, v, 144, 13);
    FieldU16(output, 122, 1, f, v, 144, 14);
    FieldU32(output, 124, 48, f, v, 144, 15);
    FieldU32(output, 128, 168, f, v, 144, 16);
    FieldU16(output, 132, 0, f, v, 144, 17);
    FieldU16(output, 134, 0, f, v, 144, 18);
    FieldU16(output, 136, NEGOTIATE, f, v, 144, 19);
    FieldU16(output, 138, UNAVAILABLE, f, v, 144, 20);
    FieldU16(output, 140, 2, f, v, 144, 21);
    FieldU16(output, 142, 0, f, v, 144, 22);
  }

  method WriteUnavailableBody(output: array<Byte>, requestHash: Digest, ghost header: seq<Bytes>)
    requires |header| == 13 && output.Length == MAX_RECORD
    requires Written(output[..], HEADER_FIELDS + Shift(UNAVAILABLE_FIELDS, HEADER_SIZE),
      header + UnavailableValues(requestHash), 168, 13)
    modifies output
    ensures Written(output[..], HEADER_FIELDS + Shift(UNAVAILABLE_FIELDS, HEADER_SIZE),
      header + UnavailableValues(requestHash), 168, 18)
  {
    hide Written, IsNext, Be, Shift, UnavailableValues;
    ghost var v := header + UnavailableValues(requestHash);
    ghost var f := HEADER_FIELDS + Shift(UNAVAILABLE_FIELDS, HEADER_SIZE);
    NextInUnavailable(header, requestHash);
    FieldU16(output, 120, 1, f, v, 168, 13);
    FieldU16(output, 122, 1, f, v, 168, 14);
    FieldU32(output, 124, 1, f, v, 168, 15);
    FieldU64(output, 128, 0, f, v, 168, 16);
    FieldBytes(output, 136, requestHash, f, v, 168, 17);
  }

  method EncodeNegotiate(sha: Sha, nonce: Nonce, deadline: Word64, now: Word64, output: array<Byte>)
    returns (error: Error, length: nat)
    requires output.Length == MAX_RECORD
    modifies output
    ensures error == if IsZero(nonce) then NONCE else if InWindow(deadline, now) then OK else DEADLINE
    ensures error != OK ==> output[..] == old(output[..])
    ensures error == OK ==> length == |NegotiateRecord(sha, nonce, deadline)|
    ensures error == OK ==> output[..] == Page(NegotiateRecord(sha, nonce, deadline), MAX_RECORD)
  {
    hide Tile, Layout, Page, Be, Written, HeaderValues, Shift, Fit;
    if IsZero(nonce) { return NONCE, 0; }
    if !InWindow(deadline, now) { return DEADLINE, 0; }
    ghost var header := HeaderValues(NEGOTIATE, 0, NEGOTIATE_BODY, nonce, deadline, Zeros(32), Zeros(32));
    OpenHeader(NEGOTIATE, 0, NEGOTIATE_BODY, nonce, deadline, Zeros(32), sha(NegotiateBody()));
    NegotiateTable();
    WriteHeader(output, NEGOTIATE, 0, NEGOTIATE_BODY, nonce, deadline, Zeros(32));
    BodyFollows(output[..], header, NEGOTIATE_FIELDS, NegotiateValues(MAJOR), NEGOTIATE_BODY);
    WriteNegotiateBody(output, header);
    SealBody(sha, output, NEGOTIATE_BODY, header, NegotiateValues(MAJOR),
      HEADER_FIELDS + Shift(NEGOTIATE_FIELDS, HEADER_SIZE));
    return OK, HEADER_SIZE + NEGOTIATE_BODY;
  }

  method EncodeUnavailable(sha: Sha, nonce: Nonce, deadline: Word64, requestHash: Digest, now: Word64,
        output: array<Byte>)
    returns (error: Error, length: nat)
    requires output.Length == MAX_RECORD
    modifies output
    ensures error == if InWindow(deadline, now) then OK else DEADLINE
    ensures error != OK ==> output[..] == old(output[..])
    ensures error == OK ==> length == |UnavailableRecord(sha, nonce, deadline, requestHash)|
    ensures error == OK ==> output[..] == Page(UnavailableRecord(sha, nonce, deadline, requestHash), MAX_RECORD)
  {
    hide Tile, Layout, Page, Be, Written, HeaderValues, Shift, Fit;
    if !InWindow(deadline, now) { return DEADLINE, 0; }
    ghost var body := UnavailableValues(requestHash);
    ghost var header := HeaderValues(UNAVAILABLE, 1, UNAVAILABLE_BODY, nonce, deadline, requestHash, Zeros(32));
    OpenHeader(UNAVAILABLE, 1, UNAVAILABLE_BODY, nonce, deadline, requestHash, sha(UnavailableBody(requestHash)));
    TablesTile();
    WriteHeader(output, UNAVAILABLE, 1, UNAVAILABLE_BODY, nonce, deadline, requestHash);
    BodyFollows(output[..], header, UNAVAILABLE_FIELDS, body, UNAVAILABLE_BODY);
    WriteUnavailableBody(output, requestHash, header);
    SealBody(sha, output, UNAVAILABLE_BODY, header, body, HEADER_FIELDS + Shift(UNAVAILABLE_FIELDS, HEADER_SIZE));
    return OK, HEADER_SIZE + UNAVAILABLE_BODY;
  }

  lemma {:induction false} NegotiateTable()
    ensures Fit(NEGOTIATE_FIELDS, NegotiateValues(MAJOR)) && Tile(NEGOTIATE_FIELDS, 0, NEGOTIATE_BODY)
    ensures |NegotiateValues(MAJOR)| == 10
  {
    hide Tile, Be;
    TablesTile();
  }

  // A header before its body hash is known, and after.
  lemma {:induction false} OpenHeader(kind: nat, sequence: nat, size: nat, nonce: Nonce, deadline: Word64,
        prior: Digest, hash: Digest)
    ensures var header := HeaderValues(kind, sequence, size, nonce, deadline, prior, Zeros(32));
      && |header| == 13 && Fit(HEADER_FIELDS, header) && header[12] == Zeros(32)
      && Layout(header[12 := hash]) == Header(kind, sequence, size, nonce, deadline, prior, hash)
  {
    hide Layout, Be;
    var header := HeaderValues(kind, sequence, size, nonce, deadline, prior, Zeros(32));
    assert header[12 := hash] == HeaderValues(kind, sequence, size, nonce, deadline, prior, hash);
  }
}
