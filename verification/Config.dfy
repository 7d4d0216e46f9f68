/** Printing and reading memory sizes, from config.c and util.c. */
module Config {
  import opened Bytes

  const INT_BOUND: int := 0x8000_0000
  const SIZE_BOUND: int := 0x1_0000_0000_0000_0000
  const KB: nat := 1024
  const MB: nat := 1024 * 1024
  const GB: nat := 1024 * 1024 * 1024

  predicate IsDigit(b: byte) {
    48 <= b <= 57
  }

  predicate AllDigits(s: Str) {
    forall i :: 0 <= i < |s| ==> IsDigit(s[i])
  }

  /** The decimal digits that `%d` prints for a non-negative number. */
  function Digits(n: nat): (r: Str)
    ensures |r| > 0 && AllDigits(r)
  {
    if n < 10 then [48 + n] else Digits(n / 10) + [48 + n % 10]
  }

  function Value(s: Str): nat
    requires AllDigits(s)
  {
    if s == [] then 0 else 10 * Value(s[..|s| - 1]) + (s[|s| - 1] - 48)
  }

  lemma DigitIff(b: byte)
    ensures IsDigit(b) <==> b in {48, 49, 50, 51, 52, 53, 54, 55, 56, 57}
  {
  }

  /** Decimal notation: another digit multiplies by ten. */
  lemma ValueSteps(s: Str, c: byte)
    requires AllDigits(s) && IsDigit(c)
    ensures Value([]) == 0 && Value(s + [c]) == 10 * Value(s) + (c - 48)
  {
    assert (s + [c])[..|s|] == s;
  }

  /** The digits at the front of a string. */
  function Leading(s: Str): (r: Str)
    ensures r <= s && AllDigits(r)
    ensures |r| < |s| ==> !IsDigit(s[|r|])
  {
    if s == [] || !IsDigit(s[0]) then []
    else
      var r := Leading(s[1..]);
      assert s == [s[0]] + s[1..];
      [s[0]] + r
  }

  lemma {:induction false} ValueOfDigits(n: nat)
    ensures Value(Digits(n)) == n
  {
    var d := Digits(n);
    if n < 10 {
      assert d[..0] == [];
    } else {
      ValueOfDigits(n / 10);
      assert d[..|d| - 1] == Digits(n / 10);
    }
  }

  lemma {:induction false} LeadingOfDigits(d: Str, tail: Str)
    requires AllDigits(d) && (tail != [] ==> !IsDigit(tail[0]))
    ensures Leading(d + tail) == d
  {
    if d == [] {
      assert d + tail == tail;
    } else {
      assert (d + tail)[1..] == d[1..] + tail;
      LeadingOfDigits(d[1..], tail);
      assert d == [d[0]] + d[1..];
    }
  }

  lemma {:induction false} ValueMonotone(s: Str, i: nat)
    requires AllDigits(s) && i <= |s|
    ensures Value(s[..i]) <= Value(s)
  {
    if i < |s| {
      var t := s[..|s| - 1];
      ValueMonotone(t, i);
      assert t[..i] == s[..i];
    } else {
      assert s[..i] == s;
    }
  }

  /** One more than the number of digits, but one for zero. */
  method NumberLen(number: nat) returns (len: nat)
    ensures len == if number == 0 then 1 else 1 + |Digits(number)|
  {
    len := 1;
    var n := number;
    while n > 0
      invariant len + (if n == 0 then 0 else |Digits(n)|) == if number == 0 then 1 else 1 + |Digits(number)|
    {
      len := len + 1;
      n := n / 10;
    }
  }

  /** The value of the leading digits, accumulated in an int that must not overflow. */
  method ParseInt(s: Str) returns (n: nat)
    requires Value(Leading(s)) < INT_BOUND
    ensures n == Value(Leading(s))
  {
    n := 0;
    var i := 0;
    ghost var d := Leading(s);
    while i < |s| && IsDigit(s[i])
      invariant i <= |d| && n == Value(d[..i])
      decreases |s| - i
    {
      assert d[..i + 1][..i] == d[..i] && d[i] == s[i];
      ValueMonotone(d, i + 1);
      n := n * 10 + (s[i] - 48);
      assert n < INT_BOUND;
      i := i + 1;
    }
    assert d[..i] == d;
  }

  // ---------- Sizes ----------

  function Unit(m: nat): (r: nat)
    ensures r > 0
  {
    if m < KB then 1 else if m < MB then KB else if m < GB then MB else GB
  }

  function Suffix(m: nat): Str {
    if m < KB then [98] else if m < MB then [75, 98] else if m < GB then [77, 98] else [71, 98]
  }

  /** The unit by its four ranges. */
  lemma UnitRanges(m: nat)
    ensures m < 1024 ==> Unit(m) == 1 && Suffix(m) == [98]
    ensures 1024 <= m < 1048576 ==> Unit(m) == 1024 && Suffix(m) == [75, 98]
    ensures 1048576 <= m < 1073741824 ==> Unit(m) == 1048576 && Suffix(m) == [77, 98]
    ensures m >= 1073741824 ==> Unit(m) == 1073741824 && Suffix(m) == [71, 98]
  {
  }

  /** Conversion of a size to a 32-bit `int`, and of an `int` to a size. */
  function ToInt(n: nat): (x: int)
    ensures -0x8000_0000 <= x < 0x8000_0000 && (n - x) % 0x1_0000_0000 == 0
    ensures n < 0x8000_0000 ==> x == n
  {
    var low := n % (2 * INT_BOUND);
    if low < INT_BOUND then low else low - 2 * INT_BOUND
  }

  function ToSize(x: int): nat
    requires -INT_BOUND <= x
  {
    if x < 0 then SIZE_BOUND + x else x
  }

  /** What `%d` prints. */
  function Decimal(x: int): Str {
    if x < 0 then [45] + Digits(-x) else Digits(x)
  }

  /** The printed form. The buffer for a zero is one byte short, so its suffix is cut. */
  function Printed(m: nat): Str {
    var x, suffix := ToInt(m / Unit(m)), Suffix(m);
    if x == 0 then Digits(0) + suffix[..|suffix| - 1] else Decimal(x) + suffix
  }

  /** `snprintf` into a buffer of `n` bytes. */
  function Truncated(s: Str, n: nat): Str
    requires n > 0
  {
    if |s| < n then s else s[..n - 1]
  }

  lemma {:induction false} MoreDigits(a: nat, b: nat)
    requires a <= b
    ensures |Digits(a)| <= |Digits(b)|
  {
    if a < 10 {
    } else {
      MoreDigits(a / 10, b / 10);
    }
  }

  /** A negative number has fewer digits than the size it turns into, so its buffer is long enough. */
  lemma NegativeFits(x: int)
    requires -INT_BOUND <= x < 0
    ensures |Digits(-x)| < |Digits(ToSize(x))|
  {
    assert |Digits(10 * -x)| == 1 + |Digits(-x)|;
    MoreDigits(10 * -x, ToSize(x));
  }

  method MemoryToString(memory: nat) returns (s: Str)
    requires memory < SIZE_BOUND
    ensures s == Printed(memory)
  {
    hide Digits;
    var translated := ToInt(memory / Unit(memory));
    var numLen := NumberLen(ToSize(translated));
    var room := if memory < KB then numLen + 1 else numLen + 2;
    var text := Decimal(translated) + Suffix(memory);
    s := Truncated(text, room);
    OneDigit();
    if translated < 0 {
      NegativeFits(translated);
    } else if translated == 0 {
      assert text[..room - 1] == Printed(memory);
    }
  }

  lemma OneDigit()
    ensures |Digits(0)| == 1
  {
  }

  function Multiplier(tail: Str): nat {
    if PrefixCI([107, 98], tail) then KB
    else if PrefixCI([109, 98], tail) then MB
    else if PrefixCI([103, 98], tail) then GB
    else 1
  }

  /** The multiplier goes by the first two bytes of the tail: k, m or g and then b, in either case. */
  lemma MultiplierIff(tail: Str)
    ensures Multiplier(tail) in {1, 1024, 1048576, 1073741824}
    ensures Multiplier(tail) == 1024 <==> |tail| >= 2 && tail[0] in {75, 107} && tail[1] in {66, 98}
    ensures Multiplier(tail) == 1048576 <==> |tail| >= 2 && tail[0] in {77, 109} && tail[1] in {66, 98}
    ensures Multiplier(tail) == 1073741824 <==> |tail| >= 2 && tail[0] in {71, 103} && tail[1] in {66, 98}
  {
    var kb, mb, gb: Str := [107, 98], [109, 98], [103, 98];
    if |tail| >= 2 {
      SameLetterIff(107, tail[0]);
      SameLetterIff(109, tail[0]);
      SameLetterIff(103, tail[0]);
      SameLetterIff(98, tail[1]);
      TwoBytes(kb, tail);
      TwoBytes(mb, tail);
      TwoBytes(gb, tail);
    }
  }

  lemma TwoBytes(word: Str, tail: Str)
    requires |word| == 2 && |tail| >= 2
    ensures PrefixCI(word, tail) <==> Lower(word[0]) == Lower(tail[0]) && Lower(word[1]) == Lower(tail[1])
  {
  }

  /** The built-in defaults, `2MB` for a request and `2GB` for the memory. */
  lemma DefaultSizes()
    ensures var request, memory: Str := [50, 77, 66], [50, 71, 66];
            && Leading(request) == Leading(memory) == [50] && Value([50]) == 2
            && 2 * Multiplier(request[1..]) == 2097152 && 2 * Multiplier(memory[1..]) == 2147483648
  {
    var request, memory, two: Str := [50, 77, 66], [50, 71, 66], [50];
    assert request[1..] == [77, 66] && memory[1..] == [71, 66];
    assert Leading(request[1..]) == [] && Leading(memory[1..]) == [];
    assert two[..0] == [];
    MultiplierIff([77, 66]);
    MultiplierIff([71, 66]);
  }

  method ReadMemory(s: Str) returns (r: nat)
    requires Value(Leading(s)) < INT_BOUND
    ensures r == Value(Leading(s)) * Multiplier(s[|Leading(s)|..])
    ensures r < SIZE_BOUND
  {
    var num := ParseInt(s);
    var i := 0;
    while i < |s| && IsDigit(s[i])
      invariant i <= |Leading(s)|
    {
      i := i + 1;
    }
    assert i == |Leading(s)|;
    r := num * Multiplier(s[i..]);
  }

  lemma SuffixMultiplier(m: nat)
    ensures Multiplier(Suffix(m)) == Unit(m)
  {
    var s := Suffix(m);
    if |s| == 2 {
      assert Lower(s[0]) in {107, 109, 103} && Lower(s[1]) == 98;
      var kb, mb, gb: Str := [107, 98], [109, 98], [103, 98];
      assert Lower(kb[0]) == 107 && Lower(mb[0]) == 109 && Lower(gb[0]) == 103;
    }
  }

  /** What a reader finds in a printed size: the converted number and its unit, or zero. */
  lemma PrintedReads(m: nat)
    ensures var x, d := ToInt(m / Unit(m)), Leading(Printed(m));
            && Value(d) == (if x > 0 then x else 0)
            && (x > 0 ==> Multiplier(Printed(m)[|d|..]) == Unit(m))
  {
    hide Digits, Multiplier, Unit, ToInt;
    var x, suffix := ToInt(m / Unit(m)), Suffix(m);
    if x < 0 {
      assert !IsDigit(Printed(m)[0]);
    } else {
      ValueOfDigits(x);
      LeadingOfDigits(Digits(x), if x == 0 then suffix[..|suffix| - 1] else suffix);
      SuffixMultiplier(m);
      assert x > 0 ==> Printed(m)[|Digits(x)|..] == suffix;
    }
  }

  /** The number that is printed, as an `int`, and as it should be. */
  lemma ConvertedSize(m: nat)
    requires m < SIZE_BOUND
    ensures var n, x := m / Unit(m), ToInt(m / Unit(m));
            && m - m % Unit(m) == n * Unit(m)
            && (m < INT_BOUND * GB ==> x == n)
            && (m >= INT_BOUND * GB ==> x * Unit(m) < n * Unit(m) && 0 < n * Unit(m))
  {
    var n, x := m / Unit(m), ToInt(m / Unit(m));
    if m >= INT_BOUND * GB {
      assert Unit(m) == GB && n >= INT_BOUND > x;
    }
  }

  /** Reading a printed size gives the size rounded down to the printed unit if and only if it is below 2^61. */
  lemma PrintedSizeRoundsDownIff(m: nat)
    requires m < SIZE_BOUND
    ensures var d := Leading(Printed(m));
            && Value(d) < INT_BOUND
            && (Value(d) * Multiplier(Printed(m)[|d|..]) == m - m % Unit(m) <==> m < 0x2000_0000_0000_0000)
  {
    hide Printed, Leading, Value, Multiplier, ToInt, Unit;
    ConvertedSize(m);
    PrintedReads(m);
    var x, d := ToInt(m / Unit(m)), Leading(Printed(m));
    var read := Value(d) * Multiplier(Printed(m)[|d|..]);
    assert read == if x > 0 then x * Unit(m) else 0;
    assert x == 0 ==> x * Unit(m) == 0;
  }

  /** The first size that is lost: it is printed as a negative number, in which a reader finds no digits. */
  lemma HugeSizeIsLost()
    ensures var m := 0x2000_0000_0000_0000; Printed(m)[0] == 45 && Leading(Printed(m)) == []
  {
    var m := INT_BOUND * GB;
    assert ToInt(m / Unit(m)) == -INT_BOUND;
  }

  /** The unit is printed whole except for sizes whose number, as an `int`, is zero: zero itself, and the first gigabyte
      from each multiple of 2^62 on. */
  lemma UnitPrintedIff(m: nat)
    requires m < SIZE_BOUND
    ensures var s, suffix := Printed(m), Suffix(m);
            |s| >= |suffix| && s[|s| - |suffix|..] == suffix <==>
              m != 0 && !(m >= 0x4000_0000 && m / 0x4000_0000 % 0x1_0000_0000 == 0)
  {
    hide Digits;
    var s, suffix := Printed(m), Suffix(m);
    OneDigit();
    ZeroIff(m);
    if ToInt(m / Unit(m)) == 0 {
      assert suffix[|suffix| - 1] == 98;
      assert s[|s| - 1] == if |suffix| == 1 then 48 else suffix[0] by { ZeroDigit(); }
    } else {
      assert s == Decimal(ToInt(m / Unit(m))) + suffix;
    }
  }

  lemma ZeroDigit()
    ensures Digits(0) == [48]
  {
  }

  lemma ZeroIff(m: nat)
    ensures ToInt(m / Unit(m)) == 0 <==> m == 0 || (m >= GB && m / GB % (2 * INT_BOUND) == 0)
  {
    if KB <= m < GB {
      assert 1 <= m / Unit(m) < KB;
    }
  }
}
