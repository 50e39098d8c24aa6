/** The Linux backend's event-record parser (`_read_events` in _inotify.py)
    and the inotify flag constants it registers with.

    The kernel hands `read(2)` a buffer of packed `struct inotify_event`
    records (inotify(7)): `int wd; uint32 mask; uint32 cookie; uint32 len;
    char name[len]`. The parser unpacks each 16-byte header with the native
    `'iIII'` format, keeps `(wd, mask)`, and skips the name by its stated
    length. Native byte order is fixed here as little-endian. */
module InotifyEvents {
  import opened Results

  type byte = bv8

  // Event bits from sys/inotify.h.
  const IN_ACCESS: bv32 := 0x0000_0001
  const IN_MODIFY: bv32 := 0x0000_0002
  const IN_ATTRIB: bv32 := 0x0000_0004
  const IN_CLOSE_WRITE: bv32 := 0x0000_0008
  const IN_CLOSE_NOWRITE: bv32 := 0x0000_0010
  const IN_CLOSE: bv32 := IN_CLOSE_WRITE | IN_CLOSE_NOWRITE
  const IN_OPEN: bv32 := 0x0000_0020
  const IN_MOVED_FROM: bv32 := 0x0000_0040
  const IN_MOVED_TO: bv32 := 0x0000_0080
  const IN_MOVE: bv32 := IN_MOVED_FROM | IN_MOVED_TO
  const IN_CREATE: bv32 := 0x0000_0100
  const IN_DELETE: bv32 := 0x0000_0200
  const IN_DELETE_SELF: bv32 := 0x0000_0400
  const IN_MOVE_SELF: bv32 := 0x0000_0800

  /** The mask `add_watch` registers every directory with: entries created,
      deleted, or moved in or out. */
  const WATCH_FLAGS: bv32 := IN_CREATE | IN_DELETE | IN_MOVED_FROM | IN_MOVED_TO

  /** Size of one `'iIII'` header: four 4-byte fields. */
  const HEADER_SIZE: nat := 16

  /** The derived masks have their documented values, and the registration
      mask asks for none of the access, modify, open, close or self events. */
  lemma MaskValues()
    ensures IN_CLOSE == 0x18 && IN_MOVE == 0xC0 && WATCH_FLAGS == 0x3C0
    ensures WATCH_FLAGS == IN_CREATE | IN_DELETE | IN_MOVE
    ensures WATCH_FLAGS & (IN_ACCESS | IN_MODIFY | IN_ATTRIB | IN_CLOSE | IN_OPEN
                           | IN_DELETE_SELF | IN_MOVE_SELF) == 0
  {
  }

  /** A 4-byte little-endian unsigned field. */
  function LE32(b: seq<byte>): bv32
    requires |b| == 4
  {
    ((b[3] as bv32) << 24) | ((b[2] as bv32) << 16) | ((b[1] as bv32) << 8) | (b[0] as bv32)
  }

  /** The four little-endian bytes of a 32-bit field; reading them back gives
      the field. */
  function Bytes32(x: bv32): (b: seq<byte>)
    ensures |b| == 4 && LE32(b) == x
  {
    [(x & 0xFF) as byte, ((x >> 8) & 0xFF) as byte, ((x >> 16) & 0xFF) as byte, ((x >> 24) & 0xFF) as byte]
  }

  /** The `i` code: a 32-bit pattern read as a two's-complement `int`. */
  function ToSigned(u: bv32): int {
    if u < 0x8000_0000 then u as int else u as int - 0x1_0000_0000
  }

  /** One `struct inotify_event` as the kernel lays it out: the bits of the
      four 32-bit fields, then `len` name bytes. */
  datatype RawEvent = RawEvent(wd: bv32, mask: bv32, cookie: bv32, len: bv32, name: seq<byte>)

  /** The `(wd, mask)` pair `_read_events` keeps for each record. */
  datatype WatchEvent = WatchEvent(wd: int, mask: bv32)

  /** `struct.error`, raised by `struct.unpack` on a slice shorter than a header. */
  datatype ParseError = PartialHeader

  /** The fields of one unpacked header. */
  datatype Header = Header(wd: int, mask: bv32, cookie: bv32, nameLen: nat)

  /** The name is exactly as long as the header says. */
  predicate Encodable(e: RawEvent) {
    |e.name| == e.len as int
  }

  predicate AllEncodable(es: seq<RawEvent>) {
    forall i :: 0 <= i < |es| ==> Encodable(es[i])
  }

  /** The bytes of one record: the header, then exactly `len` name bytes. */
  function EncodeEvent(e: RawEvent): (b: seq<byte>)
    requires Encodable(e)
    ensures |b| == HEADER_SIZE + |e.name|
  {
    Bytes32(e.wd) + Bytes32(e.mask) + Bytes32(e.cookie) + Bytes32(e.len) + e.name
  }

  /** A buffer of records laid end to end, as one `read(2)` returns them. */
  function Encode(es: seq<RawEvent>): seq<byte>
    requires AllEncodable(es)
  {
    if es == [] then [] else EncodeEvent(es[0]) + Encode(es[1..])
  }

  /** `struct.unpack('iIII', header)`. */
  function DecodeHeader(h: seq<byte>): Header
    requires |h| == HEADER_SIZE
  {
    Header(ToSigned(LE32(h[0..4])), LE32(h[4..8]), LE32(h[8..12]), LE32(h[12..16]) as nat)
  }

  /** The `(wd, mask)` pairs of a list of records, in order. */
  function Reported(es: seq<RawEvent>): (r: seq<WatchEvent>)
    ensures |r| == |es|
  {
    if es == [] then [] else [WatchEvent(ToSigned(es[0].wd), es[0].mask)] + Reported(es[1..])
  }

  /** Puts `events` in front of a successful parse; an error stays an error. */
  function Prepend(events: seq<WatchEvent>, r: Result<seq<WatchEvent>, ParseError>): Result<seq<WatchEvent>, ParseError> {
    if r.Ok? then Ok(events + r.value) else r
  }

  /** What `_read_events` returns for the buffer `data`: one pair per header,
      each header followed by its name, skipped by length. A name that runs
      past the end of the buffer ends the parse; a partial header fails it. */
  function Parse(data: seq<byte>): Result<seq<WatchEvent>, ParseError>
    decreases |data|
  {
    if data == [] then Ok([])
    else if |data| < HEADER_SIZE then Err(PartialHeader)
    else
      var h := DecodeHeader(data[..HEADER_SIZE]);
      var next := HEADER_SIZE + h.nameLen;
      Prepend([WatchEvent(h.wd, h.mask)], if next < |data| then Parse(data[next..]) else Ok([]))
  }

  /** What is left to parse once `offset` has been reached. */
  function ParseFrom(data: seq<byte>, offset: nat): Result<seq<WatchEvent>, ParseError> {
    if offset < |data| then Parse(data[offset..]) else Ok([])
  }

  /** One pass of the loop: the header at `offset` contributes its pair, and
      parsing resumes after the header and its name. */
  lemma ParseStep(data: seq<byte>, offset: nat, events: seq<WatchEvent>)
    requires offset < |data| && |data| - offset >= HEADER_SIZE
    ensures var h := DecodeHeader(data[offset..offset + HEADER_SIZE]);
      Prepend(events, ParseFrom(data, offset))
      == Prepend(events + [WatchEvent(h.wd, h.mask)], ParseFrom(data, offset + HEADER_SIZE + h.nameLen))
  {
    var h := DecodeHeader(data[offset..offset + HEADER_SIZE]);
    var rest := data[offset..];
    assert rest[..HEADER_SIZE] == data[offset..offset + HEADER_SIZE];
    var next := offset + HEADER_SIZE + h.nameLen;
    if next < |data| {
      assert rest[HEADER_SIZE + h.nameLen..] == data[next..];
    }
    PrependTwice(events, [WatchEvent(h.wd, h.mask)], ParseFrom(data, next));
  }

  /** The loop of `_read_events`: `offset` moves forward by a header and its
      name on each pass, and the pairs are appended in buffer order. */
  method ReadEvents(data: seq<byte>) returns (r: Result<seq<WatchEvent>, ParseError>)
    ensures r == Parse(data)
  {
    var events: seq<WatchEvent> := [];
    var offset: nat := 0;
    assert data[0..] == data;
    assert Parse(data).Ok? ==> [] + Parse(data).value == Parse(data).value;
    while offset < |data|
      invariant Parse(data) == Prepend(events, ParseFrom(data, offset))
      decreases |data| - offset
    {
      if |data| - offset < HEADER_SIZE {
        return Err(PartialHeader);
      }
      var h := DecodeHeader(data[offset..offset + HEADER_SIZE]);
      ParseStep(data, offset, events);
      events := events + [WatchEvent(h.wd, h.mask)];
      offset := offset + HEADER_SIZE + h.nameLen;
    }
    assert events + [] == events;
    return Ok(events);
  }

  lemma PrependTwice(a: seq<WatchEvent>, b: seq<WatchEvent>, r: Result<seq<WatchEvent>, ParseError>)
    ensures Prepend(a, Prepend(b, r)) == Prepend(a + b, r)
  {
    if r.Ok? {
      assert a + (b + r.value) == (a + b) + r.value;
    }
  }

  /** An empty buffer yields no events. */
  lemma EmptyBufferYieldsNothing()
    ensures Parse([]) == Ok([])
  {
  }

  /** Every reported pair used at least a full header of the buffer. */
  lemma {:induction false} ParseBound(data: seq<byte>)
    ensures Parse(data).Ok? ==> HEADER_SIZE * |Parse(data).value| <= |data|
    decreases |data|
  {
    if data != [] && |data| >= HEADER_SIZE {
      var h := DecodeHeader(data[..HEADER_SIZE]);
      var next := HEADER_SIZE + h.nameLen;
      if next < |data| {
        ParseBound(data[next..]);
      }
    }
  }

  /** Reading the first record's header back from an encoded buffer. */
  lemma DecodeEncodedHeader(e: RawEvent, tail: seq<byte>)
    requires Encodable(e)
    ensures var data := EncodeEvent(e) + tail;
      && |data| >= HEADER_SIZE
      && DecodeHeader(data[..HEADER_SIZE]) == Header(ToSigned(e.wd), e.mask, e.cookie, |e.name|)
      && data[HEADER_SIZE + |e.name|..] == tail
  {
    var data := EncodeEvent(e) + tail;
    var h := Bytes32(e.wd) + Bytes32(e.mask) + Bytes32(e.cookie) + Bytes32(e.len);
    assert data == h + (e.name + tail);
    assert data[..HEADER_SIZE] == h;
    assert h[0..4] == Bytes32(e.wd);
    assert h[4..8] == Bytes32(e.mask);
    assert h[8..12] == Bytes32(e.cookie);
    assert h[12..16] == Bytes32(e.len);
  }

  /** Parsing a buffer of whole records gives back each record's `(wd, mask)`,
      in order, whatever bytes the names hold. */
  lemma {:induction false} RoundTrip(es: seq<RawEvent>)
    requires AllEncodable(es)
    ensures Parse(Encode(es)) == Ok(Reported(es))
  {
    if es != [] {
      var tail := Encode(es[1..]);
      DecodeEncodedHeader(es[0], tail);
      RoundTrip(es[1..]);
    }
  }

  /** A buffer ending in a partial header is rejected, however many whole
      records precede it. */
  lemma {:induction false} PartialHeaderRejected(es: seq<RawEvent>, tail: seq<byte>)
    requires AllEncodable(es)
    requires 0 < |tail| < HEADER_SIZE
    ensures Parse(Encode(es) + tail) == Err(PartialHeader)
  {
    if es != [] {
      var rest := Encode(es[1..]) + tail;
      assert Encode(es) + tail == EncodeEvent(es[0]) + rest;
      DecodeEncodedHeader(es[0], rest);
      PartialHeaderRejected(es[1..], tail);
    }
  }

  /** A last record whose name is cut short is still reported: the parser
      stops once the stated name length reaches the end of the buffer. */
  lemma ShortNameAccepted(e: RawEvent, k: nat)
    requires Encodable(e) && k <= |e.name|
    ensures Parse(EncodeEvent(e)[..HEADER_SIZE + k]) == Ok([WatchEvent(ToSigned(e.wd), e.mask)])
  {
    var data := EncodeEvent(e)[..HEADER_SIZE + k];
    DecodeEncodedHeader(e, []);
    var whole := EncodeEvent(e) + [];
    assert whole == EncodeEvent(e);
    assert data[..HEADER_SIZE] == whole[..HEADER_SIZE];
    assert DecodeHeader(data[..HEADER_SIZE]).nameLen == |e.name|;
    assert [WatchEvent(ToSigned(e.wd), e.mask)] + [] == [WatchEvent(ToSigned(e.wd), e.mask)];
  }
}
