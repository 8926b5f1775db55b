/** C strings. A text is the sequence of bytes before the terminating NUL, each byte a char
    with a code below 256. A pointer into the text is the suffix it points at: reading at or
    past the end of the suffix yields the terminator. */
module CText {

  datatype Option<+T> = None | Some(value: T)

  /** `p[i]` for a pointer `p` at `s`. */
  function At(s: string, i: nat): char {
    if i < |s| then s[i] else '\0'
  }

  /** `*p` for a pointer `p` at `s`. */
  function Head(s: string): char {
    At(s, 0)
  }

  /** `p + n`, kept inside the text. */
  function Drop(s: string, n: nat): (r: string)
    ensures |r| <= |s|
  {
    if n <= |s| then s[n..] else s[|s|..]
  }

  /** A byte string without the terminator. */
  predicate NulFree(s: string) {
    forall i :: 0 <= i < |s| ==> 0 < s[i] as int < 256
  }

  /** No terminator inside. */
  predicate NoNul(s: string) {
    forall i :: 0 <= i < |s| ==> s[i] != '\0'
  }

  function Repeat(c: char, n: nat): (r: string)
    ensures |r| == n
    ensures forall i :: 0 <= i < n ==> r[i] == c
  {
    if n == 0 then "" else [c] + Repeat(c, n - 1)
  }
}
