/**
 The C-level vocabulary the configuration page codec is written in:
 fixed-width unsigned integers, `char` buffers and NUL-terminated strings.
 */
module CTypes {

  type uint8 = x: int | 0 <= x < 0x100
  type uint32 = x: int | 0 <= x < 0x1_0000_0000
  type uint64 = x: int | 0 <= x < 0x1_0000_0000_0000_0000

  /** A C `char`: one byte. */
  type CChar = c: char | c as int < 0x100

  /** The contents of a `char` buffer. */
  type CText = seq<CChar>

  datatype Option<+T> = None | Some(value: T)

  /** The C string held by a buffer: everything before the first NUL.
      This is what `strlen` measures and what `strcmp` compares. */
  function CStr(s: CText): (r: CText)
    ensures r <= s
    ensures '\0' !in r
    ensures |r| < |s| ==> s[|r|] == '\0'
  {
    if s == [] || s[0] == '\0' then [] else [s[0]] + CStr(s[1..])
  }

  /** A buffer without a NUL is its own C string, and taking the C string twice
      changes nothing. */
  lemma CStrOfTerminatorFree(s: CText)
    ensures '\0' !in s ==> CStr(s) == s
    ensures CStr(CStr(s)) == CStr(s)
  {
    var r := CStr(s);
    assert |r| < |s| ==> s[|r|] in s;
  }

  /** A NUL-free text followed by a NUL is read back as that text. */
  lemma {:induction false} CStrOfTerminated(t: CText)
    requires '\0' !in t
    ensures CStr(t + ['\0']) == t
  {
    if t != [] {
      assert (t + ['\0'])[1..] == t[1..] + ['\0'];
      CStrOfTerminated(t[1..]);
    }
  }
}
