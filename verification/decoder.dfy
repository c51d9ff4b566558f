/**
 The decoder `config_update_from_serialized`: read a map header, then for
 exactly as many passes as it announces read a key and, if the key names
 one of six fields, that field's value. Tokens are consumed exactly as the
 loop consumes them: an unrecognised key (including "UID") consumes nothing
 but itself, so its value is read as the next pass's key.

 Errors of the MessagePack reader are ignored by the loop. The model keeps
 going wherever the loop's behaviour is defined by what is visible, and stops
 with an error in two places:
 - KeyOverflow: the key read failed or the key is 64 characters or longer;
   the loop then stores a NUL at `key[key_len]` with `key_len >= 64`,
   outside the 64-byte key buffer. A value read that fails because no token
   is left, in a pass other than the last, leads there too: the next key
   read finds nothing;
 - ValueReadFailed: in a pass other than the last, a value is present but
   the field's reader rejects it: a wrong type, an integer out of range, or
   a string of 65 or more characters; where the reader's cursor is left
   afterwards is decided by the MessagePack library, which is not part of
   this model.
 In the last pass nothing more is read after the value, so there a failed
 value read leaves the field as it was and the loop ends normally.
 */
module Decoder {
  import opened CTypes
  import opened Schema

  /** `char key[64]`. */
  const KeyCapacity: nat := 64

  /** `name_len = 65`: room for 64 characters and the NUL. */
  const TextCapacity: nat := 65

  datatype DecodeError = KeyOverflow | ValueReadFailed(field: Field)

  datatype Result<+T> = Ok(value: T) | Err(error: DecodeError)

  /** The record being filled in and the tokens not yet read. */
  datatype Cursor = Cursor(config: Config, rest: seq<Token>)

  // ---------------------------------------------------------------- keys

  /** As written: the index at which `key[key_len] = 0` stores the NUL.
      A successful string read sets `key_len` to the string's length, and so
      does a string too long for the buffer; any other failed read leaves
      `key_len` at `sizeof key`. The index is outside the buffer exactly
      when the next token is not a string of fewer than 64 characters. */
  function KeyTerminatorIndex(ts: seq<Token>): (i: nat)
    ensures i < KeyCapacity <==> |ts| > 0 && ts[0].Str? && |ts[0].s| < KeyCapacity
  {
    if |ts| > 0 && ts[0].Str? then |ts[0].s| else KeyCapacity
  }

  /** Inputs on which the terminator lands outside `char key[64]`: running
      out of tokens, any non-string where a key is expected, any key of 64
      characters or more. */
  lemma KeyTerminatorOutOfBounds(t: Token, s: CText, rest: seq<Token>)
    ensures KeyTerminatorIndex([]) >= KeyCapacity
    ensures !t.Str? ==> KeyTerminatorIndex([t] + rest) >= KeyCapacity
    ensures |s| >= KeyCapacity ==> KeyTerminatorIndex([Str(s)] + rest) >= KeyCapacity
  {
  }

  /** Reads a key, failing exactly where the source would write past the key
      buffer. */
  function ReadKey(ts: seq<Token>): (r: Result<(CText, seq<Token>)>)
    ensures r.Ok? <==> KeyTerminatorIndex(ts) < KeyCapacity
    ensures r.Ok? ==> ts[0] == Str(r.value.0) && r.value.1 == ts[1..] && |r.value.0| < KeyCapacity
    ensures r.Err? ==> r.error == KeyOverflow
  {
    if |ts| > 0 && ts[0].Str? && |ts[0].s| + 1 <= KeyCapacity then Ok((ts[0].s, ts[1..]))
    else Err(KeyOverflow)
  }

  // -------------------------------------------------------------- values

  /** `cmp_read_uchar`: an 8-bit unsigned integer on the wire, whether written
      as an 8-bit value or as a small unsigned integer. */
  function ReadUChar(ts: seq<Token>): (r: Option<uint8>)
    ensures r.Some? <==> |ts| > 0 && (ts[0].U8? || (ts[0].UInt? && ts[0].u < 0x100))
    ensures r.Some? ==> |ts| > 0 && (ts[0] == U8(r.value) || ts[0] == UInt(r.value))
  {
    if |ts| == 0 then None
    else match ts[0]
      case U8(b) => Some(b)
      case UInt(u) => if u < 0x100 then Some(u) else None
      case _ => None
  }

  /** `cmp_read_uint` into a `uint32_t`. */
  function ReadUInt32(ts: seq<Token>): (r: Option<uint32>)
    ensures r.Some? <==> |ts| > 0 && (ts[0].U8? || (ts[0].UInt? && ts[0].u < 0x1_0000_0000))
    ensures r.Some? ==> |ts| > 0 && ((ts[0].U8? && ts[0].b == r.value) || ts[0] == UInt(r.value))
  {
    if |ts| == 0 then None
    else match ts[0]
      case U8(b) => Some(b)
      case UInt(u) => if u < 0x1_0000_0000 then Some(u) else None
      case _ => None
  }

  /** `cmp_read_str` into a 65-byte field: the string and a NUL are stored,
      so the field then holds the string up to its first NUL. */
  function ReadText(ts: seq<Token>): (r: Option<CText>)
    ensures r.Some? <==> |ts| > 0 && ts[0].Str? && |ts[0].s| < TextCapacity
    ensures r.Some? ==> r.value == CStr(ts[0].s)
  {
    if |ts| > 0 && ts[0].Str? && |ts[0].s| + 1 <= TextCapacity then Some(CStr(ts[0].s)) else None
  }

  /** The value the reader of a recognised field takes from the next token,
      if it accepts that token. */
  function ReadValue(f: Field, ts: seq<Token>): (r: Option<Value>)
    requires f != Uid
    ensures f == Id ==>
      (r.Some? <==> |ts| > 0 && Norm(ts[0]).UInt? && Norm(ts[0]).u < 0x100)
    ensures f == ApplicationCrc || f == ApplicationSize || f == UpdateCount ==>
      (r.Some? <==> |ts| > 0 && Norm(ts[0]).UInt? && Norm(ts[0]).u < 0x1_0000_0000)
    ensures f == Name || f == DeviceClass ==>
      (r.Some? <==> |ts| > 0 && ts[0].Str? && |ts[0].s| < TextCapacity)
    ensures r.Some? ==> (r.value.Byte? <==> f == Id) && (r.value.Text? <==> f == Name || f == DeviceClass)
    ensures r.Some? && r.value.Byte? ==> Norm(ts[0]) == UInt(r.value.b)
    ensures r.Some? && r.value.Word? ==> Norm(ts[0]) == UInt(r.value.w)
    ensures r.Some? && r.value.Text? ==> r.value.t == CStr(ts[0].s)
  {
    match f
    case Id => (match ReadUChar(ts) case Some(b) => Some(Byte(b)) case None => None)
    case Name => (match ReadText(ts) case Some(t) => Some(Text(t)) case None => None)
    case DeviceClass => (match ReadText(ts) case Some(t) => Some(Text(t)) case None => None)
    case ApplicationCrc => (match ReadUInt32(ts) case Some(w) => Some(Word(w)) case None => None)
    case ApplicationSize => (match ReadUInt32(ts) case Some(w) => Some(Word(w)) case None => None)
    case UpdateCount => (match ReadUInt32(ts) case Some(w) => Some(Word(w)) case None => None)
    case Uid => None
  }

  /** The value read for one recognised key. It succeeds exactly when the
      field's reader accepts the next token, then stores that value in `f`,
      consumes that one token and changes no other field. */
  function ReadField(c: Config, f: Field, ts: seq<Token>): (r: Result<Cursor>)
    requires f != Uid
    ensures r.Ok? <==> ReadValue(f, ts).Some?
    ensures r.Ok? ==> Get(r.value.config, f) == ReadValue(f, ts).value
    ensures r.Ok? ==> |ts| > 0 && r.value.rest == ts[1..]
    ensures r.Ok? ==> forall g :: g != f ==> Get(r.value.config, g) == Get(c, g)
    ensures r.Err? ==> r.error == ValueReadFailed(f)
  {
    var rest := if |ts| > 0 then ts[1..] else [];
    match f
    case Id =>
      (match ReadUChar(ts)
       case Some(b) => Ok(Cursor(c.(id := b), rest))
       case None => Err(ValueReadFailed(f)))
    case Name =>
      (match ReadText(ts)
       case Some(t) => Ok(Cursor(c.(boardName := t), rest))
       case None => Err(ValueReadFailed(f)))
    case DeviceClass =>
      (match ReadText(ts)
       case Some(t) => Ok(Cursor(c.(deviceClass := t), rest))
       case None => Err(ValueReadFailed(f)))
    case ApplicationCrc =>
      (match ReadUInt32(ts)
       case Some(w) => Ok(Cursor(c.(applicationCrc := w), rest))
       case None => Err(ValueReadFailed(f)))
    case ApplicationSize =>
      (match ReadUInt32(ts)
       case Some(w) => Ok(Cursor(c.(applicationSize := w), rest))
       case None => Err(ValueReadFailed(f)))
    case UpdateCount =>
      (match ReadUInt32(ts)
       case Some(w) => Ok(Cursor(c.(updateCount := w), rest))
       case None => Err(ValueReadFailed(f)))
  }

  // ------------------------------------------------------------ dispatch

  /** The field a key selects: one match over the six recognised names.
      "UID" and every other name select nothing. */
  function Lookup(key: CText): (r: Option<Field>)
    ensures r.Some? ==> r.value != Uid && KeyOf(r.value) == CStr(key)
    ensures r.None? ==> forall f :: f != Uid ==> KeyOf(f) != CStr(key)
  {
    var k := CStr(key);
    if k == KeyOf(Id) then Some(Id)
    else if k == KeyOf(Name) then Some(Name)
    else if k == KeyOf(DeviceClass) then Some(DeviceClass)
    else if k == KeyOf(ApplicationCrc) then Some(ApplicationCrc)
    else if k == KeyOf(ApplicationSize) then Some(ApplicationSize)
    else if k == KeyOf(UpdateCount) then Some(UpdateCount)
    else None
  }

  /** Each field's own key selects it. */
  lemma LookupKeyOf(f: Field)
    ensures Lookup(KeyOf(f)) == (if f == Uid then None else Some(f))
  {
    KeysDistinct(f, f);
    CStrOfTerminatorFree(KeyOf(f));
    if f == Uid {
      forall g | g != Uid
        ensures KeyOf(g) != KeyOf(Uid)
      {
        KeysDistinct(g, Uid);
      }
    } else {
      var r := Lookup(KeyOf(f));
      assert r.Some?;
      KeysDistinct(r.value, f);
    }
  }

  /** A key matches the literal of no field other than the one it selects. */
  lemma LookupSelectsOnlyOne(key: CText)
    ensures Lookup(key).Some? ==> forall g :: g != Lookup(key).value ==> KeyOf(g) != CStr(key)
  {
    match Lookup(key)
    case None =>
    case Some(f) =>
      forall g | g != f
        ensures KeyOf(g) != CStr(key)
      {
        KeysDistinct(f, g);
      }
  }

  /** One `if (!strcmp(literal, key)) { read the value }` of the loop body. */
  function IfKey(key: CText, f: Field, st: Result<Cursor>): Result<Cursor>
    requires f != Uid
  {
    match st
    case Err(_) => st
    case Ok(cur) => if CStr(key) == KeyOf(f) then ReadField(cur.config, f, cur.rest) else st
  }

  /** The reference dispatch: read the value of the field `Lookup` selects,
      or nothing. */
  function Select(c: Config, key: CText, ts: seq<Token>): (r: Result<Cursor>)
    ensures r.Ok? ==> r.value.rest == ts || (|ts| > 0 && r.value.rest == ts[1..])
    ensures r.Err? ==> r.error.ValueReadFailed?
  {
    match Lookup(key)
    case Some(f) => ReadField(c, f, ts)
    case None => Ok(Cursor(c, ts))
  }

  /** As written: the six independent `if`s, each testing the same key. They
      read at most one value, doing what a single dispatch on `Lookup` does,
      because the six literals are distinct. */
  function Dispatch(c: Config, key: CText, ts: seq<Token>): (r: Result<Cursor>)
    ensures r == Select(c, key, ts)
  {
    LookupSelectsOnlyOne(key);
    var s1 := IfKey(key, Id, Ok(Cursor(c, ts)));
    var s2 := IfKey(key, Name, s1);
    var s3 := IfKey(key, DeviceClass, s2);
    var s4 := IfKey(key, ApplicationCrc, s3);
    var s5 := IfKey(key, ApplicationSize, s4);
    IfKey(key, UpdateCount, s5)
  }

  // --------------------------------------------------------------- loop

  /** One pass of the loop body: read a key, then at most one value. */
  function Iteration(cur: Cursor): (r: Result<Cursor>)
    ensures r.Ok? ==> |cur.rest| > 0 && cur.rest[0].Str?
    ensures r.Ok? ==> r.value.rest == cur.rest[1..] || (|cur.rest| > 1 && r.value.rest == cur.rest[2..])
    ensures r.Err? && r.error.ValueReadFailed? ==> |cur.rest| > 0 && cur.rest[0].Str?
  {
    match ReadKey(cur.rest)
    case Err(e) => Err(e)
    case Ok((key, rest)) => Select(cur.config, key, rest)
  }

  /** A pass changes at most one field: the one its key selects. A failed
      value read is blamed on that same field. */
  lemma IterationChangesAtMostOneField(cur: Cursor)
    ensures Iteration(cur).Ok? ==>
      forall g :: Get(Iteration(cur).value.config, g) != Get(cur.config, g) ==> Lookup(cur.rest[0].s) == Some(g)
    ensures Iteration(cur).Err? && Iteration(cur).error.ValueReadFailed? ==>
      |cur.rest| > 0 && cur.rest[0].Str? && Lookup(cur.rest[0].s) == Some(Iteration(cur).error.field)
  {
  }

  /** The error a failed pass ends the loop with when more passes are to
      come. A value read that failed for want of any token leaves nothing
      for the next key read, which then stores its NUL at `key[64]`. */
  function Abort(cur: Cursor, e: DecodeError): DecodeError {
    if e.ValueReadFailed? && |cur.rest| == 1 then KeyOverflow else e
  }

  /** `n` passes that all succeed, with more passes to come after them,
      stopping at the first error; the cursor after them is where the next
      pass starts. */
  function DecodeEntries(cur: Cursor, n: nat): (r: Result<Cursor>)
    ensures r.Ok? ==> |r.value.rest| + n <= |cur.rest|
    ensures r.Ok? ==> r.value.config.uid == cur.config.uid
    decreases n
  {
    if n == 0 then Ok(cur)
    else match Iteration(cur)
      case Err(e) => Err(Abort(cur, e))
      case Ok(next) => DecodeEntries(next, n - 1)
  }

  /** The whole `while (key_count--)` loop from `cur`, with `n` passes to go.
      A failed value read in the last pass ends the loop like any last pass:
      nothing is read after it, and the field keeps its earlier value. */
  function RunPasses(cur: Cursor, n: nat): (r: Result<Config>)
    ensures r.Ok? ==> n <= |cur.rest|
    ensures r.Ok? ==> r.value.uid == cur.config.uid
    decreases n
  {
    if n == 0 then Ok(cur.config)
    else match Iteration(cur)
      case Ok(next) => RunPasses(next, n - 1)
      case Err(e) => if n == 1 && e.ValueReadFailed? then Ok(cur.config) else Err(Abort(cur, e))
  }

  /** With no token left, every further pass overflows the key buffer; this
      is the error `Abort` anticipates for a value that is missing. */
  lemma NothingLeftOverflows(c: Config, n: nat)
    requires n > 0
    ensures RunPasses(Cursor(c, []), n) == Err(KeyOverflow)
  {
  }

  /** `config_update_from_serialized`. If the first token is not a map
      header the read fails, `key_count` stays 0 and nothing changes. */
  function UpdateFromSerialized(init: Config, ts: seq<Token>): (r: Result<Config>)
    ensures r.Ok? ==> r.value.uid == init.uid
    ensures (|ts| == 0 || !ts[0].MapHdr?) ==> r == Ok(init)
    ensures |ts| > 0 && ts[0].MapHdr? && ts[0].count >= |ts| ==> r.Err?
  {
    if |ts| > 0 && ts[0].MapHdr? then RunPasses(Cursor(init, ts[1..]), ts[0].count)
    else Ok(init)
  }

  /** A loop of `n + m` passes, `m` of them still to come after the first
      `n`: the first `n` passes must all succeed, since none of them is the
      last. */
  lemma {:induction false} RunPassesSplit(cur: Cursor, n: nat, m: nat)
    requires m > 0
    ensures RunPasses(cur, n + m) ==
      match DecodeEntries(cur, n)
      case Err(e) => Err(e)
      case Ok(mid) => RunPasses(mid, m)
    decreases n
  {
    if n > 0 {
      var step := Iteration(cur);
      if step.Ok? {
        RunPassesSplit(step.value, n - 1, m);
        assert n + m - 1 == (n - 1) + m;
      }
    }
  }

  /** After a successful pass, `n - 1` passes are left to go. */
  lemma RunPassesStep(cur: Cursor, n: nat, next: Cursor)
    requires n > 0 && Iteration(cur) == Ok(next)
    ensures RunPasses(cur, n) == RunPasses(next, n - 1)
  {
  }

  /** A failed pass ends the loop: normally if it was the last and the
      value read failed, with its error otherwise. */
  lemma RunPassesStop(cur: Cursor, n: nat)
    requires n > 0 && Iteration(cur).Err?
    ensures RunPasses(cur, n) ==
      if n == 1 && Iteration(cur).error.ValueReadFailed? then Ok(cur.config) else Err(Abort(cur, Iteration(cur).error))
  {
  }

  /** One pass of the loop as written: the key read, then the six `if`s. */
  lemma LoopPass(cur: Cursor, n: nat)
    requires n > 0
    ensures ReadKey(cur.rest).Err? ==> RunPasses(cur, n) == Err(ReadKey(cur.rest).error)
    ensures ReadKey(cur.rest).Ok? ==>
      var st := Dispatch(cur.config, ReadKey(cur.rest).value.0, ReadKey(cur.rest).value.1);
      (st.Err? && n == 1 ==> RunPasses(cur, n) == Ok(cur.config)) &&
      (st.Err? && n > 1 && |cur.rest| == 1 ==> RunPasses(cur, n) == RunPasses(Cursor(cur.config, []), n - 1)) &&
      (st.Err? && n > 1 && |cur.rest| > 1 ==> RunPasses(cur, n) == Err(st.error)) &&
      (st.Ok? ==> RunPasses(cur, n) == RunPasses(st.value, n - 1))
  {
  }

  /** The loop as written, with `key_count` counting down. */
  method UpdateFromSerializedLoop(init: Config, ts: seq<Token>) returns (r: Result<Config>)
    ensures r == UpdateFromSerialized(init, ts)
    ensures r.Ok? ==> r.value.uid == init.uid
  {
    if |ts| == 0 || !ts[0].MapHdr? {
      return Ok(init);
    }
    var keyCount: nat := ts[0].count;
    var cur := Cursor(init, ts[1..]);
    ghost var outcome := UpdateFromSerialized(init, ts);
    assert outcome == RunPasses(cur, keyCount);
    while keyCount > 0
      invariant RunPasses(cur, keyCount) == outcome
      decreases keyCount
    {
      LoopPass(cur, keyCount);
      keyCount := keyCount - 1;
      var key := ReadKey(cur.rest);
      if key.Err? {
        return Err(key.error);
      }
      var step := Dispatch(cur.config, key.value.0, key.value.1);
      if step.Err? {
        if keyCount == 0 {
          return Ok(cur.config);
        }
        if key.value.1 != [] {
          return Err(step.error);
        }
        // the value was missing: the next key read finds nothing
        cur := Cursor(cur.config, []);
      } else {
        cur := step.value;
      }
    }
    return Ok(cur.config);
  }

  // ---------------------------------------------------------- properties

  /** No string token anywhere in `ts` is the key of `f`. */
  ghost predicate KeyAbsent(ts: seq<Token>, f: Field) {
    forall i :: 0 <= i < |ts| ==> !(ts[i].Str? && CStr(ts[i].s) == KeyOf(f))
  }

  /** A pass on tokens without the key of `f` leaves `f`, and the absence
      of its key, as they were. */
  lemma IterationKeepsAbsentKey(cur: Cursor, f: Field)
    requires KeyAbsent(cur.rest, f) && Iteration(cur).Ok?
    ensures Get(Iteration(cur).value.config, f) == Get(cur.config, f)
    ensures KeyAbsent(Iteration(cur).value.rest, f)
  {
    assert cur.rest[0] in cur.rest;
    assert Lookup(cur.rest[0].s) != Some(f);
    IterationChangesAtMostOneField(cur);
  }

  lemma {:induction false} AbsentKeyUnchangedPasses(cur: Cursor, n: nat, f: Field)
    requires KeyAbsent(cur.rest, f)
    ensures RunPasses(cur, n).Ok? ==> Get(RunPasses(cur, n).value, f) == Get(cur.config, f)
    decreases n
  {
    if n > 0 && Iteration(cur).Ok? {
      IterationKeepsAbsentKey(cur, f);
      AbsentKeyUnchangedPasses(Iteration(cur).value, n - 1, f);
    }
  }

  /** A field whose key never appears keeps the value the caller passed in;
      `uid` keeps it whatever the tokens say. */
  lemma AbsentKeyUnchanged(init: Config, ts: seq<Token>, f: Field)
    requires f == Uid || KeyAbsent(ts, f)
    ensures UpdateFromSerialized(init, ts).Ok? ==> Get(UpdateFromSerialized(init, ts).value, f) == Get(init, f)
  {
    if f != Uid && |ts| > 0 && ts[0].MapHdr? {
      AbsentKeyUnchangedPasses(Cursor(init, ts[1..]), ts[0].count, f);
    }
  }

  /** A map of one entry: a recognised key whose value the field's reader
      rejects leaves the record as it was, and one it accepts sets that
      field and nothing else. */
  lemma LastValueDecidesField(init: Config, f: Field, t: Token, rest: seq<Token>)
    requires f != Uid
    ensures ReadValue(f, [t] + rest).None? ==>
      UpdateFromSerialized(init, [MapHdr(1), Str(KeyOf(f)), t] + rest) == Ok(init)
    ensures ReadValue(f, [t] + rest).Some? ==>
      var r := UpdateFromSerialized(init, [MapHdr(1), Str(KeyOf(f)), t] + rest);
      r.Ok? && Get(r.value, f) == ReadValue(f, [t] + rest).value &&
      forall g :: g != f ==> Get(r.value, g) == Get(init, g)
  {
    var ts := [MapHdr(1), Str(KeyOf(f)), t] + rest;
    assert ts[1..] == [Str(KeyOf(f))] + ([t] + rest);
    assert ts[1..][1..] == [t] + rest;
    LookupKeyOf(f);
    KeysDistinct(f, f);
  }

  /** A recognised key with nothing after it, when more entries are
      announced: its value read fails, the next key read finds nothing, and
      the loop stores its NUL at `key[64]`. */
  lemma MissingValueOverflows(init: Config, f: Field, count: nat)
    requires f != Uid && 2 <= count < 0x1_0000_0000
    ensures UpdateFromSerialized(init, [MapHdr(count), Str(KeyOf(f))]) == Err(KeyOverflow)
  {
    var ts := [MapHdr(count), Str(KeyOf(f))];
    assert ts[1..] == [Str(KeyOf(f))];
    LookupKeyOf(f);
    KeysDistinct(f, f);
  }

  /** An unrecognised key is consumed alone: whatever follows it is read as
      the next pass's key. */
  lemma UnrecognisedKeyConsumedAlone(c: Config, k: CText, rest: seq<Token>)
    requires Lookup(k).None? && |k| < KeyCapacity
    ensures Iteration(Cursor(c, [Str(k)] + rest)) == Ok(Cursor(c, rest))
  {
    assert ([Str(k)] + rest)[1..] == rest;
  }

  /** Announcing one more entry and putting an unrecognised key first changes
      nothing: the token after the key, its intended value, is read as the
      next key. */
  lemma UnrecognisedKeyShiftsEntries(init: Config, k: CText, count: nat, rest: seq<Token>)
    requires Lookup(k).None? && |k| < KeyCapacity && count + 1 < 0x1_0000_0000
    ensures UpdateFromSerialized(init, [MapHdr(count + 1), Str(k)] + rest) ==
      UpdateFromSerialized(init, [MapHdr(count)] + rest)
  {
    assert ([MapHdr(count + 1), Str(k)] + rest)[1..] == [Str(k)] + rest;
    assert ([MapHdr(count)] + rest)[1..] == rest;
    UnrecognisedKeyConsumedAlone(init, k, rest);
  }

  /** An unrecognised key followed by a number, with another pass to come,
      ends in the key overflow: the number is read as a key. */
  lemma UnrecognisedKeyThenNumberOverflows(init: Config, k: CText, t: Token, count: nat, rest: seq<Token>)
    requires Lookup(k).None? && |k| < KeyCapacity && !t.Str?
    requires 2 <= count < 0x1_0000_0000
    ensures UpdateFromSerialized(init, [MapHdr(count), Str(k), t] + rest) == Err(KeyOverflow)
  {
    UnrecognisedKeyShiftsEntries(init, k, count - 1, [t] + rest);
    assert [MapHdr(count), Str(k), t] + rest == [MapHdr(count - 1 + 1), Str(k)] + ([t] + rest);
    assert ([MapHdr(count - 1)] + ([t] + rest))[1..] == [t] + rest;
  }

  // ------------------------------------------- integer markers do not matter

  /** Cursors at the same record whose remaining tokens denote the same
      values. */
  predicate SameCursor(a: Cursor, b: Cursor) {
    a.config == b.config && NormAll(a.rest) == NormAll(b.rest)
  }

  /** Token sequences denoting the same values agree on their first token's
      value and on the values of the tokens after it. */
  lemma SameValuesSplit(ts: seq<Token>, us: seq<Token>)
    requires NormAll(ts) == NormAll(us) && |ts| > 0
    ensures Norm(ts[0]) == Norm(us[0])
    ensures NormAll(ts[1..]) == NormAll(us[1..])
  {
    assert NormAll(ts) == [Norm(ts[0])] + NormAll(ts[1..]);
    assert NormAll(us) == [Norm(us[0])] + NormAll(us[1..]);
    assert NormAll(ts)[0] == Norm(ts[0]) && NormAll(us)[0] == Norm(us[0]);
    assert NormAll(ts)[1..] == NormAll(ts[1..]) && NormAll(us)[1..] == NormAll(us[1..]);
  }

  /** A field's reader sees the value of the next token, not its marker. */
  lemma ReadFieldSameValues(c: Config, f: Field, ts: seq<Token>, us: seq<Token>)
    requires f != Uid && NormAll(ts) == NormAll(us)
    ensures ReadField(c, f, ts).Err? <==> ReadField(c, f, us).Err?
    ensures ReadField(c, f, ts).Err? ==> ReadField(c, f, ts).error == ReadField(c, f, us).error
    ensures ReadField(c, f, ts).Ok? ==> SameCursor(ReadField(c, f, ts).value, ReadField(c, f, us).value)
  {
    if |ts| > 0 {
      SameValuesSplit(ts, us);
      assert ReadUChar(ts) == ReadUChar(us);
      assert ReadUInt32(ts) == ReadUInt32(us);
      assert ReadText(ts) == ReadText(us);
    }
  }

  /** The dispatch after a key sees values, not markers. */
  lemma SelectSameValues(c: Config, key: CText, ts: seq<Token>, us: seq<Token>)
    requires NormAll(ts) == NormAll(us)
    ensures Select(c, key, ts).Err? <==> Select(c, key, us).Err?
    ensures Select(c, key, ts).Err? ==> Select(c, key, ts).error == Select(c, key, us).error
    ensures Select(c, key, ts).Ok? ==> SameCursor(Select(c, key, ts).value, Select(c, key, us).value)
  {
    if Lookup(key).Some? {
      ReadFieldSameValues(c, Lookup(key).value, ts, us);
    }
  }

  /** The readers see values, not markers: a pass from cursors whose tokens
      denote the same values fails alike or succeeds alike. */
  lemma IterationSameValues(a: Cursor, b: Cursor)
    requires SameCursor(a, b)
    ensures Iteration(a).Err? <==> Iteration(b).Err?
    ensures Iteration(a).Err? ==> Iteration(a).error == Iteration(b).error
    ensures Iteration(a).Ok? ==> SameCursor(Iteration(a).value, Iteration(b).value)
  {
    if |a.rest| > 0 {
      SameValuesSplit(a.rest, b.rest);
      assert ReadKey(a.rest).Ok? <==> ReadKey(b.rest).Ok?;
      if ReadKey(a.rest).Ok? {
        assert a.rest[0] == b.rest[0];
        SelectSameValues(a.config, a.rest[0].s, a.rest[1..], b.rest[1..]);
      }
    }
  }

  lemma {:induction false} RunPassesSameValues(a: Cursor, b: Cursor, n: nat)
    requires SameCursor(a, b)
    ensures RunPasses(a, n) == RunPasses(b, n)
    decreases n
  {
    if n > 0 {
      IterationSameValues(a, b);
      match (Iteration(a), Iteration(b)) {
        case (Ok(na), Ok(nb)) =>
          RunPassesStep(a, n, na);
          RunPassesStep(b, n, nb);
          RunPassesSameValues(na, nb, n - 1);
        case (Err(_), Err(_)) =>
          RunPassesStop(a, n);
          RunPassesStop(b, n);
        case _ =>
          assert false;
      }
    }
  }

  /** Decoding depends only on the values the tokens denote: an 8-bit
      integer and the same unsigned integer are read alike. */
  lemma UpdateFromSerializedSameValues(init: Config, ts: seq<Token>, us: seq<Token>)
    requires NormAll(ts) == NormAll(us)
    ensures UpdateFromSerialized(init, ts) == UpdateFromSerialized(init, us)
  {
    if |ts| > 0 {
      SameValuesSplit(ts, us);
      if ts[0].MapHdr? {
        RunPassesSameValues(Cursor(init, ts[1..]), Cursor(init, us[1..]), ts[0].count);
      }
    }
  }

  // ----------------------------------------------------------- round trip

  /** The record the decoder should produce from `Encode(c)`: every encoded
      field taken from `c`, except `uid`, which is never read. */
  function Restored(init: Config, c: Config): Config {
    init.(id := c.id,
          boardName := CStr(c.boardName),
          deviceClass := CStr(c.deviceClass),
          applicationCrc := c.applicationCrc,
          applicationSize := c.applicationSize,
          updateCount := c.updateCount)
  }

  /** `cfg` with field `f` taken from `c`, as the decoder stores it. */
  function Adopt(cfg: Config, c: Config, f: Field): Config {
    match f
    case Id => cfg.(id := c.id)
    case Name => cfg.(boardName := CStr(c.boardName))
    case DeviceClass => cfg.(deviceClass := CStr(c.deviceClass))
    case ApplicationCrc => cfg.(applicationCrc := c.applicationCrc)
    case ApplicationSize => cfg.(applicationSize := c.applicationSize)
    case UpdateCount => cfg.(updateCount := c.updateCount)
    case Uid => cfg
  }

  /** Both strings the encoder writes, measured with `strlen`, fit their
      65-byte fields. */
  predicate TextsFit(c: Config) {
    |CStr(c.boardName)| < TextCapacity && |CStr(c.deviceClass)| < TextCapacity
  }

  /** The value the encoder writes for a recognised field reads back. */
  lemma ReadFieldOfValueToken(cfg: Config, c: Config, f: Field, more: seq<Token>)
    requires f != Uid && TextsFit(c)
    ensures ReadField(cfg, f, [ValueToken(c, f)] + more) == Ok(Cursor(Adopt(cfg, c, f), more))
  {
    var ts := [ValueToken(c, f)] + more;
    assert ts[1..] == more;
    match f
    case Name =>
      CStrOfTerminatorFree(c.boardName);
      assert ReadText(ts) == Some(CStr(c.boardName));
    case DeviceClass =>
      CStrOfTerminatorFree(c.deviceClass);
      assert ReadText(ts) == Some(CStr(c.deviceClass));
    case _ =>
  }

  /** One encoded entry for a recognised field is decoded in one pass. */
  lemma DecodeEntry(cfg: Config, c: Config, f: Field, more: seq<Token>)
    requires f != Uid && TextsFit(c)
    ensures Iteration(Cursor(cfg, Entry(c, f) + more)) == Ok(Cursor(Adopt(cfg, c, f), more))
  {
    var ts := Entry(c, f) + more;
    assert ts[0] == Str(KeyOf(f));
    assert ts[1..] == [ValueToken(c, f)] + more;
    assert ReadKey(ts) == Ok((KeyOf(f), [ValueToken(c, f)] + more));
    LookupKeyOf(f);
    ReadFieldOfValueToken(cfg, c, f, more);
  }

  /** The "UID" entry is not recognised: only its key is consumed. */
  lemma SkipUidKey(cfg: Config, rest: seq<Token>)
    ensures Iteration(Cursor(cfg, [KeyToken(Uid)] + rest)) == Ok(Cursor(cfg, rest))
  {
    LookupKeyOf(Uid);
    assert KeyToken(Uid) == Str("UID");
    UnrecognisedKeyConsumedAlone(cfg, "UID", rest);
  }

  /** `cfg` with the fields `fs` taken from `c`, one after another. */
  function AdoptAll(cfg: Config, c: Config, fs: seq<Field>): Config
    decreases |fs|
  {
    if fs == [] then cfg else AdoptAll(Adopt(cfg, c, fs[0]), c, fs[1..])
  }

  /** The fields the decoder recognises, in wire order. */
  const DecodedFields: seq<Field> := [Id, Name, DeviceClass, ApplicationCrc, ApplicationSize, UpdateCount]

  /** Taking the six recognised fields from `c` gives the restored record. */
  lemma AdoptDecodedFields(init: Config, c: Config)
    ensures AdoptAll(init, c, DecodedFields) == Restored(init, c)
  {
  }

  /** The encoding is a map header, the six recognised entries, then "UID"
      and its value. */
  lemma EncodeSplit(c: Config, rest: seq<Token>)
    ensures Encode(c) + rest ==
      [MapHdr(7)] + (Entries(c, DecodedFields) + ([KeyToken(Uid)] + ([ValueToken(c, Uid)] + rest)))
  {
    assert WireOrder == DecodedFields + [Uid];
    EntriesAppend(c, DecodedFields, [Uid]);
    assert Entries(c, [Uid]) == Entry(c, Uid);
  }

  /** The "UID" entry, in the last pass, ends the loop with the record as
      it was. */
  lemma UidEntryEndsLoop(cfg: Config, c: Config, rest: seq<Token>)
    ensures RunPasses(Cursor(cfg, [KeyToken(Uid)] + ([ValueToken(c, Uid)] + rest)), 1) == Ok(cfg)
  {
    SkipUidKey(cfg, [ValueToken(c, Uid)] + rest);
  }

  lemma DecodeEntriesStep(cur: Cursor, n: nat, next: Cursor)
    requires n > 0 && Iteration(cur) == Ok(next)
    ensures DecodeEntries(cur, n) == DecodeEntries(next, n - 1)
  {
  }

  /** The entries of recognised fields are decoded one per pass, each
      setting its field from `c`, and the passes stop right after them. */
  lemma {:induction false} DecodeFields(cfg: Config, c: Config, fs: seq<Field>, more: seq<Token>)
    requires Uid !in fs
    requires TextsFit(c)
    ensures DecodeEntries(Cursor(cfg, Entries(c, fs) + more), |fs|) == Ok(Cursor(AdoptAll(cfg, c, fs), more))
    decreases |fs|
  {
    if fs == [] {
      assert Entries(c, fs) + more == more;
    } else {
      var tail := Entries(c, fs[1..]) + more;
      assert Entries(c, fs) + more == Entry(c, fs[0]) + tail;
      DecodeEntry(cfg, c, fs[0], tail);
      var next := Adopt(cfg, c, fs[0]);
      DecodeEntriesStep(Cursor(cfg, Entry(c, fs[0]) + tail), |fs|, Cursor(next, tail));
      assert fs == [fs[0]] + fs[1..];
      DecodeFields(next, c, fs[1..], more);
    }
  }

  /** Once `n` passes have read their entries, one more is left. */
  lemma RunAfterDecoded(cur: Cursor, n: nat, mid: Cursor)
    requires DecodeEntries(cur, n) == Ok(mid)
    ensures RunPasses(cur, n + 1) == RunPasses(mid, 1)
  {
    RunPassesSplit(cur, n, 1);
  }

  /** The seven passes over the entries of an encoding restore the record:
      six set their fields and the last, on "UID", ends the loop. */
  lemma RunEncodedEntries(init: Config, c: Config, rest: seq<Token>)
    requires TextsFit(c)
    ensures RunPasses(Cursor(init, Entries(c, DecodedFields) + ([KeyToken(Uid)] + ([ValueToken(c, Uid)] + rest))), |DecodedFields| + 1)
      == Ok(Restored(init, c))
  {
    var t7 := [KeyToken(Uid)] + ([ValueToken(c, Uid)] + rest);
    var mid := Cursor(AdoptAll(init, c, DecodedFields), t7);
    DecodeFields(init, c, DecodedFields, t7);
    RunAfterDecoded(Cursor(init, Entries(c, DecodedFields) + t7), |DecodedFields|, mid);
    UidEntryEndsLoop(mid.config, c, rest);
    AdoptDecodedFields(init, c);
  }

  /** Round trip: decoding what the encoder wrote, followed by anything,
      restores every encoded field except `uid`, provided both strings fit the
      65-byte fields. */
  lemma DecodeEncode(init: Config, c: Config, rest: seq<Token>)
    requires TextsFit(c)
    ensures UpdateFromSerialized(init, Encode(c) + rest) == Ok(Restored(init, c))
  {
    var t1 := Entries(c, DecodedFields) + ([KeyToken(Uid)] + ([ValueToken(c, Uid)] + rest));
    EncodeSplit(c, rest);
    assert (Encode(c) + rest)[1..] == t1;
    assert |DecodedFields| + 1 == 7;
    RunEncodedEntries(init, c, rest);
  }
}
