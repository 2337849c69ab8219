/**
 * Characters as the C++ sources see them: the bytes of a `std::string`.
 * A byte is kept as a Dafny `char` below 256 so that literals such as
 * "ACGT" stay readable; `Code` is the `(unsigned char)` cast that indexes
 * the 256-entry tables.
 */
module Text {

  type Byte = c: char | c as int < 256 witness 'A'

  type Bytes = seq<Byte>

  /** `(unsigned char)c`: the index of `c` in a 256-entry table. */
  function Code(c: Byte): (r: nat)
    ensures r < 256
  {
    c as int
  }

  /**
   * `s[k]` on a `std::string`. Index `|s|` reads the terminating NUL; the
   * model also reads NUL further out, where C++ leaves the read undefined.
   */
  function At(s: Bytes, k: nat): (c: Byte)
    ensures k < |s| ==> c == s[k]
    ensures |s| <= k ==> c == '\0'
  {
    if k < |s| then s[k] else '\0'
  }

  /** C `toupper` in the default locale: only 'a'..'z' change. */
  function ToUpper(c: Byte): (r: Byte)
    ensures 'a' <= c <= 'z' ==> r as int == c as int - 32 && 'A' <= r <= 'Z'
    ensures !('a' <= c <= 'z') ==> r == c
  {
    if 'a' <= c <= 'z' then (c as int - 32) as char else c
  }

  /** Number of positions of `s` whose element satisfies `f`. */
  function CountWhere<T>(s: seq<T>, f: T -> bool): (r: nat)
    ensures r <= |s|
  {
    if s == [] then 0 else CountWhere(s[..|s| - 1], f) + (if f(s[|s| - 1]) then 1 else 0)
  }
}
