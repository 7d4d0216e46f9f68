/** The string helpers of util.c, on buffers that hold NUL-terminated strings. */
module Strings {
  import opened Bytes

  lemma {:induction false} CStrTerminated(s: Str, n: nat)
    requires n < |s| && s[n] == 0 && ZeroFree(s[..n])
    ensures CStr(s) == s[..n]
  {
    if n == 0 {
    } else {
      assert s[..n][0] == s[0];
      assert s[1..][..n - 1] == s[..n][1..];
      CStrTerminated(s[1..], n - 1);
      assert s[..n] == [s[0]] + s[1..][..n - 1];
    }
  }

  /** The string without the occurrences of a character. */
  function Without(s: Str, c: byte): (r: Str)
    ensures c !in r
  {
    if s == [] then [] else (if s[0] == c then [] else [s[0]]) + Without(s[1..], c)
  }

  lemma Unfold(s: Str, c: byte)
    requires s != []
    ensures Without(s, c) == (if s[0] == c then [] else [s[0]]) + Without(s[1..], c)
  {
  }

  lemma {:induction false} WithoutSnoc(s: Str, x: byte, c: byte)
    ensures Without(s + [x], c) == Without(s, c) + if x == c then [] else [x]
  {
    if s == [] {
    } else {
      WithoutSnoc(s[1..], x, c);
      assert (s + [x])[1..] == s[1..] + [x] && (s + [x])[0] == s[0];
      var head, last := if s[0] == c then [] else [s[0]], if x == c then [] else [x];
      Unfold(s, c);
      Unfold(s + [x], c);
      hide Without;
      assert head + (Without(s[1..], c) + last) == (head + Without(s[1..], c)) + last;
    }
  }

  /** What is left is told part by part and byte by byte: the character goes, any other stays. */
  lemma {:induction false} WithoutParts(s: Str, t: Str, c: byte)
    ensures Without(s + t, c) == Without(s, c) + Without(t, c)
  {
    hide Without;
    if t == [] {
      assert s + t == s;
      WithoutEmpty(c);
    } else {
      var front, x := t[..|t| - 1], t[|t| - 1];
      WithoutParts(s, front, c);
      WithoutSnoc(s + front, x, c);
      WithoutSnoc(front, x, c);
      assert s + t == (s + front) + [x] && t == front + [x];
    }
  }

  lemma WithoutEmpty(c: byte)
    ensures Without([], c) == []
  {
  }

  lemma WithoutOne(x: byte, c: byte)
    ensures Without([x], c) == if x == c then [] else [x]
  {
    WithoutSnoc([], x, c);
  }

  lemma {:induction false} WithoutShrinks(s: Str, c: byte)
    ensures |Without(s, c)| <= |s| && (ZeroFree(s) ==> ZeroFree(Without(s, c)))
  {
    if s == [] {
    } else {
      WithoutShrinks(s[1..], c);
      assert s == [s[0]] + s[1..];
    }
  }

  /** Compact the string in place with a reading and a writing index. */
  method RemoveOccur(str: array<byte>, ghost n: nat, c: byte)
    requires n < str.Length && str[n] == 0 && ZeroFree(str[..n])
    modifies str
    ensures CStr(str[..]) == Without(old(str[..n]), c)
  {
    ghost var was := str[..];
    assert was[..n] == str[..n];
    var p, pp := 0, 0;
    while str[p] != 0
      invariant pp <= p <= n
      invariant forall i :: p <= i < str.Length ==> str[i] == was[i]
      invariant str[..pp] == Without(was[..p], c)
      decreases n - p
    {
      hide Without, CStr;
      TakeSnoc(was, p);
      WithoutSnoc(was[..p], was[p], c);
      str[pp] := str[p];
      p := p + 1;
      if str[pp] != c {
        pp := pp + 1;
      }
    }
    assert p == n;
    WithoutShrinks(was[..n], c);
    str[pp] := 0;
    CStrTerminated(str[..], pp);
  }

  lemma TakeSnoc(s: Str, i: nat)
    requires i < |s|
    ensures s[..i + 1] == s[..i] + [s[i]]
  {
  }

  /** A fresh buffer with the string and the chunk behind it. */
  method AppendString(src: Str, chunk: Str) returns (r: array<byte>)
    requires ZeroFree(chunk)
    ensures fresh(r) && CStr(r[..]) == CStr(src) + chunk
  {
    var s := CStr(src);
    r := new byte[|s| + |chunk| + 1];
    forall i | 0 <= i < |s| {
      r[i] := s[i];
    }
    forall i | 0 <= i < |chunk| {
      r[|s| + i] := chunk[i];
    }
    r[|s| + |chunk|] := 0;
    assert r[..|s| + |chunk|] == s + chunk;
    CStrTerminated(r[..], |s| + |chunk|);
  }
}
