/**
 The configuration record, the MessagePack wire seen as a sequence of
 tokens, and the encoder `config_write_messagepack`.

 A token stands for one value the MessagePack writer produces or the reader
 consumes: a map header (map format family), a string (str format family),
 an 8-bit unsigned integer written as such, or an unsigned integer written
 in its shortest form. Byte-level framing belongs to the MessagePack library
 and is not part of this model.
 */
module Schema {
  import opened CTypes

  /** The fields of `bootloader_config_t`. A text field holds the characters
      of the field's `char` buffer, which may include a NUL; what the code
      reads from it is the C string `CStr` of those characters. Where the
      model stores text (`ReadText`, `ConfigRead`) it stores that C string
      alone, whereas the C buffer keeps the string, a NUL and then whatever
      bytes were there before; the two agree up to `CStr`. */
  datatype Config = Config(
    id: uint8,
    boardName: CText,
    deviceClass: CText,
    applicationCrc: uint32,
    applicationSize: uint32,
    updateCount: uint32,
    uid: CText)

  datatype Field = Id | Name | DeviceClass | ApplicationCrc | ApplicationSize | UpdateCount | Uid

  /** A field's content, whatever its C type. */
  datatype Value = Byte(b: uint8) | Text(t: CText) | Word(w: uint32)

  function Get(c: Config, f: Field): Value {
    match f
    case Id => Byte(c.id)
    case Name => Text(c.boardName)
    case DeviceClass => Text(c.deviceClass)
    case ApplicationCrc => Word(c.applicationCrc)
    case ApplicationSize => Word(c.applicationSize)
    case UpdateCount => Word(c.updateCount)
    case Uid => Text(c.uid)
  }

  /** The string literal each field is keyed by on the wire. */
  function KeyOf(f: Field): CText {
    match f
    case Id => "ID"
    case Name => "name"
    case DeviceClass => "device_class"
    case ApplicationCrc => "application_crc"
    case ApplicationSize => "application_size"
    case UpdateCount => "update_count"
    case Uid => "UID"
  }

  /** The length the encoder passes to the writer together with each literal. */
  function DeclaredKeyLength(f: Field): nat {
    match f
    case Id => 2
    case Name => 4
    case DeviceClass => 12
    case ApplicationCrc => 15
    case ApplicationSize => 16
    case UpdateCount => 12
    case Uid => 3
  }

  /** Each length passed with a key literal is the literal's length. */
  lemma DeclaredLengthsMatch(f: Field)
    ensures DeclaredKeyLength(f) == |KeyOf(f)|
  {
    match f
    case Id =>
    case Name =>
    case DeviceClass =>
    case ApplicationCrc =>
    case ApplicationSize =>
    case UpdateCount =>
    case Uid =>
  }

  /** No two fields share a key, and no key contains a NUL. */
  lemma KeysDistinct(f: Field, g: Field)
    ensures KeyOf(f) == KeyOf(g) <==> f == g
    ensures '\0' !in KeyOf(f)
  {
    if f != g && |KeyOf(f)| == |KeyOf(g)| {
      assert KeyOf(f)[0] != KeyOf(g)[0];
    }
  }

  datatype Token =
    | MapHdr(count: uint32)
    | Str(s: CText)
    | U8(b: uint8)
    | UInt(u: uint64)

  /** The value a token denotes, forgetting how an integer was marked: the
      writer emits `U8(b)` and `UInt(b)` as the same bytes when b >= 128
      (`cmp_write_uint` then writes an 8-bit unsigned integer), so a reader
      can return either. */
  function Norm(t: Token): Token {
    match t
    case U8(b) => UInt(b)
    case _ => t
  }

  /** `Norm` applied to every token. */
  function NormAll(ts: seq<Token>): (vs: seq<Token>)
    ensures |vs| == |ts|
    decreases |ts|
  {
    if ts == [] then [] else [Norm(ts[0])] + NormAll(ts[1..])
  }

  /** Each token of `NormAll(ts)` is the value of the token of `ts` there. */
  lemma {:induction false} NormAllAt(ts: seq<Token>, i: nat)
    requires i < |ts|
    ensures NormAll(ts)[i] == Norm(ts[i])
    decreases i
  {
    if i > 0 {
      NormAllAt(ts[1..], i - 1);
    }
  }

  /** The values of a concatenation are the values of its parts. */
  lemma {:induction false} NormAllAppend(ts: seq<Token>, us: seq<Token>)
    ensures NormAll(ts + us) == NormAll(ts) + NormAll(us)
    decreases |ts|
  {
    if ts != [] {
      assert (ts + us)[1..] == ts[1..] + us;
      NormAllAppend(ts[1..], us);
    } else {
      assert ts + us == us;
    }
  }

  /** The order in which the encoder writes the fields. */
  const WireOrder: seq<Field> := [Id, Name, DeviceClass, ApplicationCrc, ApplicationSize, UpdateCount, Uid]

  /** `cmp_write_str(ctx, literal, length)`: the writer emits the first
      `length` characters of the literal. Every declared length is the
      literal's own, so the whole key goes out. */
  function KeyToken(f: Field): (t: Token)
    ensures t == Str(KeyOf(f))
  {
    DeclaredLengthsMatch(f);
    assert KeyOf(f)[..|KeyOf(f)|] == KeyOf(f);
    Str(KeyOf(f)[..DeclaredKeyLength(f)])
  }

  /** The value written after a field's key: `cmp_write_u8` for the ID,
      `cmp_write_str` with `strlen` for text, `cmp_write_uint` for counters. */
  function ValueToken(c: Config, f: Field): (t: Token)
    ensures t.U8? <==> f == Id
    ensures t.Str? <==> f == Name || f == DeviceClass || f == Uid
    ensures Get(c, f).Byte? ==> t == U8(Get(c, f).b)
    ensures Get(c, f).Word? ==> t == UInt(Get(c, f).w)
    ensures Get(c, f).Text? ==> t == Str(CStr(Get(c, f).t)) && '\0' !in t.s
  {
    match f
    case Id => U8(c.id)
    case Name => Str(CStr(c.boardName))
    case DeviceClass => Str(CStr(c.deviceClass))
    case ApplicationCrc => UInt(c.applicationCrc)
    case ApplicationSize => UInt(c.applicationSize)
    case UpdateCount => UInt(c.updateCount)
    case Uid => Str(CStr(c.uid))
  }

  /** One key/value pair. */
  function Entry(c: Config, f: Field): (ts: seq<Token>)
    ensures ts == [Str(KeyOf(f)), ValueToken(c, f)]
  {
    [KeyToken(f), ValueToken(c, f)]
  }

  /** The pairs of the fields `fs`, in order. */
  function Entries(c: Config, fs: seq<Field>): (ts: seq<Token>)
    ensures |ts| == 2 * |fs|
    ensures forall i :: 0 <= i < |fs| ==> ts[2 * i] == Str(KeyOf(fs[i])) && ts[2 * i + 1] == ValueToken(c, fs[i])
  {
    if fs == [] then [] else Entry(c, fs[0]) + Entries(c, fs[1..])
  }

  lemma {:induction false} EntriesAppend(c: Config, fs: seq<Field>, gs: seq<Field>)
    ensures Entries(c, fs + gs) == Entries(c, fs) + Entries(c, gs)
  {
    if fs != [] {
      assert (fs + gs)[1..] == fs[1..] + gs;
      EntriesAppend(c, fs[1..], gs);
    } else {
      assert fs + gs == gs;
    }
  }

  /** `config_write_messagepack`: a map header announcing one entry per
      field, then each field's key and value in wire order. */
  function Encode(c: Config): (ts: seq<Token>)
    ensures |ts| == 1 + 2 * |WireOrder|
    ensures ts[0] == MapHdr(|WireOrder|)
  {
    [MapHdr(7)] + Entries(c, WireOrder)
  }

  /** The encoding's layout: after the header, position 2i + 1 holds the key
      of the i-th field in wire order and position 2i + 2 its value. */
  lemma EncodeLayout(c: Config)
    ensures forall i :: 0 <= i < |WireOrder| ==> Encode(c)[1 + 2 * i] == Str(KeyOf(WireOrder[i]))
    ensures forall i :: 0 <= i < |WireOrder| ==> Encode(c)[2 + 2 * i] == ValueToken(c, WireOrder[i])
  {
    var ts := Encode(c);
    assert ts[1..] == Entries(c, WireOrder);
  }

  /** Every field is written exactly once. */
  lemma WireOrderCoversEveryField(f: Field)
    ensures f in WireOrder
    ensures multiset(WireOrder)[f] == 1
  {
  }
}
