/** Bytes, C strings and the small vocabulary shared by every other module. */
module Bytes {

  type byte = x: int | 0 <= x < 256

  /** The bytes of a buffer; of a C string, the bytes before its terminating NUL. */
  type Str = seq<byte>

  datatype Option<+T> = None | Some(value: T)

  /** The value of a byte read through a plain (signed) `char`, as the list and trie code compares it. */
  function Signed(b: byte): int {
    if b < 128 then b else b - 256
  }

  /** ASCII characters compare by their codes, and all others come before them, by their codes as well. */
  lemma SignedOrder(a: byte, b: byte)
    ensures a < 128 && b < 128 ==> (Signed(a) < Signed(b) <==> a < b)
    ensures a >= 128 && b >= 128 ==> (Signed(a) < Signed(b) <==> a < b)
    ensures a >= 128 && b < 128 ==> Signed(a) < Signed(b)
    ensures Signed(a) == Signed(b) <==> a == b
  {
  }

  predicate ZeroFree(s: Str) {
    0 !in s
  }

  /** What `strlen` and the string functions see of a buffer that is followed by a NUL. */
  function CStr(s: Str): (r: Str)
    ensures r <= s && ZeroFree(r)
    ensures r == s <==> ZeroFree(s)
    ensures |r| < |s| ==> s[|r|] == 0
  {
    if s == [] || s[0] == 0 then []
    else
      var r := CStr(s[1..]);
      assert s == [s[0]] + s[1..];
      [s[0]] + r
  }

  function Lower(b: byte): byte {
    if 65 <= b <= 90 then b + 32 else b
  }

  /** `strncasecmp(a, b, strlen(a)) == 0`: `a` is a prefix of `b`, ignoring case. */
  predicate PrefixCI(a: Str, b: Str) {
    |a| <= |b| && forall i :: 0 <= i < |a| ==> Lower(a[i]) == Lower(b[i])
  }

  /** Two bytes match without case when they are equal or the two cases of one of the letters A to Z. */
  lemma SameLetterIff(a: byte, b: byte)
    ensures Lower(a) == Lower(b) <==>
              a == b || (65 <= a <= 90 && b == a + 32) || (65 <= b <= 90 && a == b + 32)
  {
  }

  const SLASH: byte := 47
  const HASH: byte := 35
}
