/**
 The UID renderer of `config_SetUID`: the 12 bytes of the device's unique ID
 become 24 lowercase hexadecimal characters, high nibble first, followed by
 a NUL. Reading the bytes from the hardware register is not modelled; they
 are an input.
 */
module UidHex {
  import opened CTypes

  /** Number of bytes in the hardware unique ID. */
  const UidBytes: nat := 12

  /** The `d2x` table. */
  const Digits: CText := "0123456789abcdef"

  predicate IsLowerHex(c: CChar) {
    '0' <= c <= '9' || 'a' <= c <= 'f'
  }

  /** The character for nibble `n`. */
  function HexDigit(n: nat): (c: CChar)
    requires n < 16
    ensures IsLowerHex(c)
  {
    Digits[n]
  }

  /** The nibble a lowercase hex character stands for. */
  function HexValue(c: CChar): (r: Option<nat>)
    ensures r.Some? <==> ('0' <= c <= '9' || 'a' <= c <= 'f')
    ensures r.Some? ==> r.value < 16
  {
    if '0' <= c <= '9' then Some(c as int - '0' as int)
    else if 'a' <= c <= 'f' then Some(c as int - 'a' as int + 10)
    else None
  }

  lemma HexValueOfDigit(n: nat)
    requires n < 16
    ensures HexValue(HexDigit(n)) == Some(n)
  {
  }

  /** Two characters per byte: `d2x[b >> 4]` then `d2x[b & 0x0F]`. */
  function HexPairs(b: seq<uint8>): (r: CText)
    ensures |r| == 2 * |b|
    ensures forall i :: 0 <= i < |b| ==> r[2 * i] == HexDigit(b[i] / 16) && r[2 * i + 1] == HexDigit(b[i] % 16)
    ensures forall j :: 0 <= j < |r| ==> IsLowerHex(r[j])
  {
    if b == [] then []
    else [HexDigit(b[0] / 16), HexDigit(b[0] % 16)] + HexPairs(b[1..])
  }

  /** The 25 characters `config_SetUID` stores in the record's `uid` buffer. */
  function RenderUid(b: seq<uint8>): (r: CText)
    requires |b| == UidBytes
    ensures |r| == 2 * UidBytes + 1
    ensures r[2 * UidBytes] == '\0'
    ensures forall j :: 0 <= j < 2 * UidBytes ==> IsLowerHex(r[j])
    ensures forall i :: 0 <= i < UidBytes ==> r[2 * i] == HexDigit(b[i] / 16) && r[2 * i + 1] == HexDigit(b[i] % 16)
  {
    HexPairs(b) + ['\0']
  }

  /** The C string the rendered buffer holds: exactly the 24 hex characters. */
  function UidText(b: seq<uint8>): (t: CText)
    requires |b| == UidBytes
    ensures |t| == 2 * UidBytes
    ensures t == CStr(RenderUid(b))
  {
    var r := RenderUid(b);
    assert r == r[..2 * UidBytes] + ['\0'];
    CStrOfTerminated(r[..2 * UidBytes]);
    r[..2 * UidBytes]
  }

  /** Reads hex characters back into bytes, two characters per byte. */
  function ParseHexPairs(s: CText): Option<seq<uint8>>
    decreases |s|
  {
    if s == [] then Some([])
    else if |s| == 1 then None
    else
      match (HexValue(s[0]), HexValue(s[1]), ParseHexPairs(s[2..]))
      case (Some(hi), Some(lo), Some(rest)) =>
        Some([hi * 16 + lo] + rest)
      case _ => None
  }

  /** The rendering loses nothing: the hex text determines the 12 bytes. */
  lemma {:induction false} ParseHexPairsInverts(b: seq<uint8>)
    ensures ParseHexPairs(HexPairs(b)) == Some(b)
  {
    if b != [] {
      var r := HexPairs(b);
      var hi, lo := b[0] / 16, b[0] % 16;
      assert r == [HexDigit(hi), HexDigit(lo)] + HexPairs(b[1..]);
      assert r[2..] == HexPairs(b[1..]);
      HexValueOfDigit(hi);
      HexValueOfDigit(lo);
      assert hi * 16 + lo == b[0];
      ParseHexPairsInverts(b[1..]);
      assert [b[0]] + b[1..] == b;
    }
  }

  /** The UID text reads back as the 12 ID bytes. */
  lemma UidTextParses(b: seq<uint8>)
    requires |b| == UidBytes
    ensures ParseHexPairs(UidText(b)) == Some(b)
  {
    assert UidText(b) == HexPairs(b);
    ParseHexPairsInverts(b);
  }

  /** Two devices show the same UID text only if their ID bytes agree. */
  lemma UidTextInjective(a: seq<uint8>, b: seq<uint8>)
    requires |a| == UidBytes && |b| == UidBytes
    requires UidText(a) == UidText(b)
    ensures a == b
  {
    UidTextParses(a);
    UidTextParses(b);
  }

  /** The loop of `config_SetUID`, writing two characters per byte and then the NUL. */
  method SetUid(b: seq<uint8>) returns (str: CText)
    requires |b| == UidBytes
    ensures str == RenderUid(b)
    ensures |str| == 2 * UidBytes + 1 && str[2 * UidBytes] == '\0'
  {
    str := [];
    var i := 0;
    while i < |b|
      invariant 0 <= i <= |b|
      invariant |str| == 2 * i
      invariant forall k :: 0 <= k < i ==> str[2 * k] == HexDigit(b[k] / 16) && str[2 * k + 1] == HexDigit(b[k] % 16)
    {
      str := str + [HexDigit(b[i] / 16), HexDigit(b[i] % 16)];
      i := i + 1;
    }
    var hex := str;
    str := str + ['\0'];
    var expected := RenderUid(b);
    forall j | 0 <= j < 2 * UidBytes
      ensures hex[j] == expected[j]
    {
      var k := j / 2;
      assert k < UidBytes;
      if j == 2 * k {
        assert hex[2 * k] == HexDigit(b[k] / 16);
      } else {
        assert hex[2 * k + 1] == HexDigit(b[k] % 16);
      }
    }
    assert hex == expected[..2 * UidBytes];
  }
}
