/**
 The integrity envelope of a configuration page: bytes [0, 4) hold the
 big-endian CRC-32 of bytes [4, N). The CRC-32 algorithm itself is a
 parameter of every operation, so nothing here depends on how it is computed.
 */
module Envelope {
  import opened CTypes

  /** Bytes occupied by the stored checksum at the start of a page. */
  const HeaderSize: nat := 4

  /** `crc32(0, bytes, length)`: the checksum primitive, left uninterpreted. */
  type Crc32 = seq<uint8> -> uint32

  /** `config_calculate_crc`: the checksum of the `size - 4` bytes after the
      header. */
  function PayloadCrc(crc: Crc32, page: seq<uint8>): (r: uint32)
    requires |page| >= HeaderSize
    ensures exists payload :: |payload| == |page| - HeaderSize && page == page[..HeaderSize] + payload && r == crc(payload)
  {
    assert page == page[..HeaderSize] + page[HeaderSize..];
    crc(page[HeaderSize..])
  }

  /** The checksum covers exactly the payload: two pages that agree from
      byte 4 on have the same checksum, whatever their headers hold. */
  lemma PayloadCrcIgnoresHeader(crc: Crc32, a: seq<uint8>, b: seq<uint8>)
    requires |a| >= HeaderSize && |b| >= HeaderSize
    requires a[HeaderSize..] == b[HeaderSize..]
    ensures PayloadCrc(crc, a) == PayloadCrc(crc, b)
  {
  }

  /** The four header bytes written by `config_write`, most significant first
      (`(crc >> 24) & 0xff`, ..., `crc & 0xff`). */
  function BeEncode(v: uint32): (h: seq<uint8>)
    ensures |h| == HeaderSize
    ensures h[0] as int * 0x100_0000 + h[1] as int * 0x1_0000 + h[2] as int * 0x100 + h[3] as int == v
  {
    Base256Digits(v);
    [v / 0x100_0000, v / 0x1_0000 % 0x100, v / 0x100 % 0x100, v % 0x100]
  }

  /** A 32-bit value is the sum of its four base-256 digits, each scaled. */
  lemma Base256Digits(v: uint32)
    ensures v / 0x100_0000 < 0x100
    ensures v == (v / 0x100_0000) * 0x100_0000 + (v / 0x1_0000 % 0x100) * 0x1_0000 + (v / 0x100 % 0x100) * 0x100 + v % 0x100
  {
    assert v == (v / 0x100_0000) * 0x100_0000 + v % 0x100_0000;
    assert v % 0x100_0000 == (v / 0x1_0000 % 0x100) * 0x1_0000 + v % 0x1_0000;
    assert v % 0x1_0000 == (v / 0x100 % 0x100) * 0x100 + v % 0x100;
  }

  /** The 32-bit value `config_is_valid` assembles from the header bytes.
      The shifted bytes occupy disjoint bit ranges, so OR-ing them is adding. */
  function BeDecode(h: seq<uint8>): (v: uint32)
    requires |h| == HeaderSize
    ensures v / 0x100_0000 == h[0] && v / 0x1_0000 % 0x100 == h[1]
    ensures v / 0x100 % 0x100 == h[2] && v % 0x100 == h[3]
  {
    var low := h[1] as int * 0x1_0000 + h[2] as int * 0x100 + h[3];
    assert 0 <= low < 0x100_0000;
    assert (h[0] as int * 0x100_0000 + low) / 0x100_0000 == h[0];
    assert (h[0] as int * 0x100_0000 + low) / 0x1_0000 == h[0] as int * 0x100 + h[1];
    assert (h[0] as int * 0x100_0000 + low) / 0x100 == h[0] as int * 0x1_0000 + h[1] as int * 0x100 + h[2];
    h[0] as int * 0x100_0000 + h[1] as int * 0x1_0000 + h[2] as int * 0x100 + h[3]
  }

  /** Unpacking inverts packing. */
  lemma BeDecodeEncode(v: uint32)
    ensures BeDecode(BeEncode(v)) == v
  {
  }

  /** Packing inverts unpacking: a header is determined by the value it denotes. */
  lemma BeEncodeDecode(h: seq<uint8>)
    requires |h| == HeaderSize
    ensures BeEncode(BeDecode(h)) == h
  {
  }

  /** `config_is_valid`: the stored header equals the recomputed checksum.
      Equivalently, the header bytes are exactly the big-endian packing of
      the payload's checksum; the page itself is a value and is not changed. */
  function IsValid(crc: Crc32, page: seq<uint8>): (valid: bool)
    requires |page| >= HeaderSize
    ensures valid <==> page[..HeaderSize] == BeEncode(crc(page[HeaderSize..]))
  {
    BeEncodeDecode(page[..HeaderSize]);
    BeDecodeEncode(crc(page[HeaderSize..]));
    BeDecode(page[..HeaderSize]) == PayloadCrc(crc, page)
  }

  /** The header step of `config_write`: store the payload's checksum,
      big-endian, in bytes [0, 4), leaving the payload untouched. */
  function SealHeader(crc: Crc32, page: seq<uint8>): (sealed: seq<uint8>)
    requires |page| >= HeaderSize
    ensures |sealed| == |page|
    ensures sealed[HeaderSize..] == page[HeaderSize..]
    ensures BeDecode(sealed[..HeaderSize]) == crc(page[HeaderSize..])
    ensures IsValid(crc, sealed)
  {
    var h := BeEncode(PayloadCrc(crc, page));
    BeDecodeEncode(PayloadCrc(crc, page));
    h + page[HeaderSize..]
  }

  /** Sealing an already valid page changes nothing, and sealing twice is
      sealing once. */
  lemma SealHeaderIdempotent(crc: Crc32, page: seq<uint8>)
    requires |page| >= HeaderSize
    ensures IsValid(crc, page) ==> SealHeader(crc, page) == page
    ensures SealHeader(crc, SealHeader(crc, page)) == SealHeader(crc, page)
  {
    var s := SealHeader(crc, page);
    if IsValid(crc, page) {
      assert s[..HeaderSize] == page[..HeaderSize];
      assert s == s[..HeaderSize] + s[HeaderSize..];
      assert page == page[..HeaderSize] + page[HeaderSize..];
    }
    var ss := SealHeader(crc, s);
    assert ss[..HeaderSize] == s[..HeaderSize];
    assert ss == ss[..HeaderSize] + ss[HeaderSize..];
    assert s == s[..HeaderSize] + s[HeaderSize..];
  }

  /** Changing one header byte of a valid page, payload left as it is,
      always makes it invalid. */
  lemma HeaderCorruptionDetected(crc: Crc32, page: seq<uint8>, i: nat, b: uint8)
    requires |page| >= HeaderSize && IsValid(crc, page)
    requires i < HeaderSize && b != page[i]
    ensures !IsValid(crc, page[i := b])
  {
    var bad := page[i := b];
    assert bad[HeaderSize..] == page[HeaderSize..];
    assert bad[..HeaderSize][i] != page[..HeaderSize][i];
  }

  /** A page of erased (all-zero) bytes. */
  function ZeroBytes(n: nat): (z: seq<uint8>)
    ensures |z| == n
    ensures forall i :: 0 <= i < n ==> z[i] == 0
  {
    seq(n, _ => 0)
  }

  /** An all-zero page passes the check exactly when the checksum of an
      all-zero payload is zero: erased flash is not invalid by construction. */
  lemma ZeroPageValidity(crc: Crc32, n: nat)
    requires n >= HeaderSize
    ensures IsValid(crc, ZeroBytes(n)) <==> crc(ZeroBytes(n - HeaderSize)) == 0
  {
    var z := ZeroBytes(n);
    assert z[HeaderSize..] == ZeroBytes(n - HeaderSize);
    assert BeEncode(0) == z[..HeaderSize];
    BeEncodeDecode(z[..HeaderSize]);
  }
}
