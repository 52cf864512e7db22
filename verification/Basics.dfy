/** Types shared by every module of the project. */
module Basics {
  datatype Option<+T> = None | Some(value: T)

  /** An unsigned char. */
  type byte = x: int | 0 <= x < 256

  const TWO64: nat := 0x1_0000_0000_0000_0000

  /** The C string that starts at the first byte of `s`: everything before the first NUL. */
  function CBytes(s: seq<byte>): (r: seq<byte>)
    ensures r <= s && 0 !in r
    ensures |r| < |s| ==> s[|r|] == 0
  {
    if s == [] || s[0] == 0 then [] else [s[0]] + CBytes(s[1..])
  }

  /** The same for decoded JSON text, which may hold an escaped NUL. */
  function CString(s: string): (r: string)
    ensures r <= s && '\0' !in r
    ensures |r| < |s| ==> s[|r|] == '\0'
  {
    if s == [] || s[0] == '\0' then [] else [s[0]] + CString(s[1..])
  }
}
