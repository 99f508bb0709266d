/** The two result types the other modules share. */
module Wrappers {

  datatype Option<+T> = None | Some(value: T)

  /** Ok carries a value; Err says that the source raises. */
  datatype Result<+T, +E> = Ok(value: T) | Err(error: E)
}

/** White space, and what more than one scanner asks of a line. */
module Chars {

  /** White space as Python's `isspace` and `\s` know it. */
  predicate Space(c: char) {
    var n := c as int;
    || 9 <= n <= 13 || 28 <= n <= 32 || n == 0x85 || n == 0xA0 || n == 0x1680 || 0x2000 <= n <= 0x200A
    || n == 0x2028 || n == 0x2029 || n == 0x202F || n == 0x205F || n == 0x3000
  }

  predicate At(s: string, i: int, c: char) {
    0 <= i < |s| && s[i] == c
  }

  /** The end of the run of `c` that starts at `i`. */
  function RunEnd(s: string, i: nat, c: char): (e: nat)
    requires i <= |s|
    ensures i <= e <= |s|
    ensures forall k :: i <= k < e ==> s[k] == c
    ensures e < |s| ==> s[e] != c
    decreases |s| - i
  {
    if i < |s| && s[i] == c then RunEnd(s, i + 1, c) else i
  }

  function SpacesEnd(s: string, i: nat): (e: nat)
    requires i <= |s|
    ensures i <= e <= |s| && forall k :: i <= k < e ==> Space(s[k])
    ensures e < |s| ==> !Space(s[e])
    decreases |s| - i
  {
    if i < |s| && Space(s[i]) then SpacesEnd(s, i + 1) else i
  }
}
