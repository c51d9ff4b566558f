/**
 The page operations `config_write` and `config_read`, composed from the
 encoder, the integrity envelope, the decoder and the UID renderer.

 The MessagePack library's conversion between tokens and bytes is a pair of
 parameters: `pack` gives the bytes the writer produces for a token sequence,
 `parse` the tokens the reader finds in a byte sequence.
 */
module Page {
  import opened CTypes
  import opened Envelope
  import opened Schema
  import opened Decoder
  import opened UidHex

  type Packer = seq<Token> -> seq<uint8>
  type Unpacker = seq<uint8> -> seq<Token>

  /** The reader finds, at the start of any bytes the writer produced,
      tokens denoting the values that were written, whatever follows them.
      Values, not tokens: the writer can emit an 8-bit integer and the same
      unsigned integer as the same bytes, and the reader may return either. */
  ghost predicate ReaderInverts(pack: Packer, parse: Unpacker) {
    forall ts: seq<Token>, rest: seq<uint8> :: NormAll(ts) <= NormAll(parse(pack(ts) + rest))
  }

  /** The writer's bytes stored into the payload region [4, N) of `buffer`:
      as many as fit, the rest of the buffer left as it was. */
  function StorePayload(buffer: seq<uint8>, bytes: seq<uint8>): (page: seq<uint8>)
    requires |buffer| >= HeaderSize
    ensures |page| == |buffer|
    ensures page[..HeaderSize] == buffer[..HeaderSize]
    ensures |bytes| <= |buffer| - HeaderSize ==> page[HeaderSize..] == bytes + buffer[HeaderSize + |bytes|..]
    ensures |bytes| > |buffer| - HeaderSize ==> page[HeaderSize..] == bytes[..|buffer| - HeaderSize]
  {
    var room := |buffer| - HeaderSize;
    if |bytes| <= room then buffer[..HeaderSize] + bytes + buffer[HeaderSize + |bytes|..]
    else buffer[..HeaderSize] + bytes[..room]
  }

  /** `config_write`: encode the record into [4, N), then store the payload's
      CRC big-endian in [0, 4). The page is valid whatever the record, and
      when the encoding fits, the payload region starts with it. */
  function ConfigWrite(crc: Crc32, pack: Packer, buffer: seq<uint8>, c: Config): (page: seq<uint8>)
    requires |buffer| >= HeaderSize
    ensures |page| == |buffer|
    ensures IsValid(crc, page)
    ensures page[..HeaderSize] == BeEncode(crc(page[HeaderSize..]))
    ensures |pack(Encode(c))| <= |buffer| - HeaderSize ==>
      page[HeaderSize..] == pack(Encode(c)) + buffer[HeaderSize + |pack(Encode(c))|..]
  {
    SealHeader(crc, StorePayload(buffer, pack(Encode(c))))
  }

  /** `config_read`: decode the payload region into `init` (the contents of
      the uninitialised local), then overwrite `uid` with the rendering of the
      hardware ID bytes `uidBytes`. The header is not read, and the
      result's `uid` never comes from the page. */
  function ConfigRead(parse: Unpacker, buffer: seq<uint8>, uidBytes: seq<uint8>, init: Config): (r: Result<Config>)
    requires |buffer| >= HeaderSize && |uidBytes| == UidBytes
    ensures r.Ok? <==> UpdateFromSerialized(init, parse(buffer[HeaderSize..])).Ok?
    ensures r.Ok? ==> r.value.uid == UidText(uidBytes)
    ensures r.Ok? ==> r.value.(uid := init.uid) == UpdateFromSerialized(init, parse(buffer[HeaderSize..])).value
  {
    match UpdateFromSerialized(init, parse(buffer[HeaderSize..]))
    case Err(e) => Err(e)
    case Ok(c) => Ok(c.(uid := UidText(uidBytes)))
  }

  /** Reading depends only on the payload region, never on the stored CRC. */
  lemma ConfigReadIgnoresHeader(parse: Unpacker, a: seq<uint8>, b: seq<uint8>, uidBytes: seq<uint8>, init: Config)
    requires |a| >= HeaderSize && |b| >= HeaderSize && |uidBytes| == UidBytes
    requires a[HeaderSize..] == b[HeaderSize..]
    ensures ConfigRead(parse, a, uidBytes, init) == ConfigRead(parse, b, uidBytes, init)
  {
  }

  /** A page just written passes the validity check, whatever the buffer
      held before and whatever the record. */
  lemma WrittenPageIsValid(crc: Crc32, pack: Packer, buffer: seq<uint8>, c: Config)
    requires |buffer| >= HeaderSize
    ensures IsValid(crc, ConfigWrite(crc, pack, buffer, c))
  {
  }

  /** A page whose payload region starts with the encoding of `c` reads back
      as `c`, except for `uid`, which is the rendering of the hardware ID. */
  lemma ReadEncodedPayload(pack: Packer, parse: Unpacker, page: seq<uint8>, tail: seq<uint8>, c: Config, uidBytes: seq<uint8>, init: Config)
    requires |page| >= HeaderSize && |uidBytes| == UidBytes
    requires TextsFit(c)
    requires page[HeaderSize..] == pack(Encode(c)) + tail
    requires ReaderInverts(pack, parse)
    ensures ConfigRead(parse, page, uidBytes, init) == Ok(Restored(init, c).(uid := UidText(uidBytes)))
  {
    var ts := Encode(c);
    var parsed := parse(pack(ts) + tail);
    assert NormAll(ts) <= NormAll(parsed);
    var more := parsed[|ts|..];
    assert parsed == parsed[..|ts|] + more;
    NormAllAppend(parsed[..|ts|], more);
    NormAllAppend(ts, more);
    assert NormAll(parsed[..|ts|]) == NormAll(parsed)[..|ts|] == NormAll(ts);
    UpdateFromSerializedSameValues(init, parsed, ts + more);
    DecodeEncode(init, c, more);
  }

  /** Page round trip: a page written from `c` is valid, and reading it back
      gives every field of `c` except `uid`, which is the rendering of the
      hardware ID. Both strings, up to their first NUL, must fit their
      65-byte fields, the encoding must fit the page, and the reader must
      undo the writer. */
  lemma WriteThenRead(crc: Crc32, pack: Packer, parse: Unpacker, buffer: seq<uint8>, c: Config, uidBytes: seq<uint8>, init: Config)
    requires |buffer| >= HeaderSize && |uidBytes| == UidBytes
    requires TextsFit(c)
    requires |pack(Encode(c))| <= |buffer| - HeaderSize
    requires ReaderInverts(pack, parse)
    ensures IsValid(crc, ConfigWrite(crc, pack, buffer, c))
    ensures ConfigRead(parse, ConfigWrite(crc, pack, buffer, c), uidBytes, init) ==
      Ok(Restored(init, c).(uid := UidText(uidBytes)))
  {
    var page := ConfigWrite(crc, pack, buffer, c);
    ReadEncodedPayload(pack, parse, page, buffer[HeaderSize + |pack(Encode(c))|..], c, uidBytes, init);
  }

  /** With well-formed text fields (no NUL inside), the round trip is exact
      up to `uid`. */
  lemma WriteThenReadExact(crc: Crc32, pack: Packer, parse: Unpacker, buffer: seq<uint8>, c: Config, uidBytes: seq<uint8>, init: Config)
    requires |buffer| >= HeaderSize && |uidBytes| == UidBytes
    requires |c.boardName| < TextCapacity && |c.deviceClass| < TextCapacity
    requires '\0' !in c.boardName && '\0' !in c.deviceClass
    requires |pack(Encode(c))| <= |buffer| - HeaderSize
    requires ReaderInverts(pack, parse)
    ensures ConfigRead(parse, ConfigWrite(crc, pack, buffer, c), uidBytes, init) == Ok(c.(uid := UidText(uidBytes)))
  {
    CStrOfTerminatorFree(c.boardName);
    CStrOfTerminatorFree(c.deviceClass);
    WriteThenRead(crc, pack, parse, buffer, c, uidBytes, init);
  }
}
