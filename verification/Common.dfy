/**
 Notions that several of the models share.
 */
module Common {

  datatype Option<+T> = None | Some(value: T)

  type Byte = b: nat | b < 256

  function SetOf<T>(s: seq<T>): set<T> {
    set x | x in s
  }

  /** The characters a C string holds: everything in front of the first NUL. */
  function CText(s: string): (r: string)
    ensures r <= s && '\0' !in r
    ensures |r| < |s| ==> s[|r|] == '\0'
  {
    if s == [] || s[0] == '\0' then [] else [s[0]] + CText(s[1..])
  }
}
