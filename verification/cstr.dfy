/** The C string and integer operations the firmware relies on: `strlcpy`,
    `strlcat`, `strchr`, `%d`/`%lu` decimal rendering, `atoi` and
    `strcasecmp`. A string is the content before its terminator, one `char`
    per byte. */
module CStr {

  /** A value that may be NULL, or a lookup that may find nothing. */
  datatype Option<+T> = None | Some(value: T)

  const INT32_MIN: int := -0x8000_0000
  const INT32_MAX: int := 0x7FFF_FFFF

  /** `uint32_t`. */
  type uint32 = x: int | 0 <= x < 0x1_0000_0000

  /** Conversion of an `int` to `uint32_t`: reduction modulo 2^32. */
  function ToUint32(x: int): (r: uint32)
    ensures 0 <= x < 0x1_0000_0000 ==> r == x
    ensures (r - x) % 0x1_0000_0000 == 0
  {
    x % 0x1_0000_0000
  }

  /** `strlcpy(dst, s, size)`: the longest prefix of `s` that leaves room for the terminator. */
  function Strlcpy(s: string, size: nat): (r: string)
    requires size >= 1
    ensures r <= s
    ensures |r| < size
    ensures |s| < size ==> r == s
    ensures |s| >= size ==> |r| == size - 1
  {
    if |s| < size then s else s[..size - 1]
  }

  /** `strlcat(dst, s, size)` on a terminated `dst` that already fits the buffer. */
  function Strlcat(dst: string, s: string, size: nat): (r: string)
    requires |dst| < size
    ensures dst <= r && r <= dst + s
    ensures |r| < size
    ensures |dst + s| < size ==> r == dst + s
  {
    dst + Strlcpy(s, size - |dst|)
  }

  /** Copying into a buffer and then appending keeps the longest prefix of the concatenation that fits. */
  lemma StrlcpyThenStrlcat(a: string, b: string, size: nat)
    requires size >= 1
    ensures Strlcat(Strlcpy(a, size), b, size) == Strlcpy(a + b, size)
  {
    if |a| >= size {
      assert (a + b)[..size - 1] == a[..size - 1];
    } else if |a + b| >= size {
      assert (a + b)[..size - 1] == a + b[..size - 1 - |a|];
    }
  }

  /** `strchr(s, c)`: index of the first occurrence of `c`, if any. */
  function IndexOf(s: string, c: char): (r: Option<nat>)
    ensures r.None? <==> c !in s
    ensures r.Some? ==> r.value < |s| && s[r.value] == c && c !in s[..r.value]
  {
    if |s| == 0 then None
    else if s[0] == c then Some(0)
    else
      match IndexOf(s[1..], c)
      case None => None
      case Some(k) =>
        assert s[..k + 1] == [s[0]] + s[1..][..k];
        Some(k + 1)
  }

  /** The first occurrence of `c` in `a + [c] + b` is the separator, when `a` has none. */
  lemma IndexOfSeparator(a: string, c: char, b: string)
    requires c !in a
    ensures IndexOf(a + [c] + b, c) == Some(|a|)
  {
    var s := a + [c] + b;
    assert s[|a|] == c;
    assert s[..|a|] == a;
  }

  predicate IsDigit(c: char) {
    '0' <= c <= '9'
  }

  predicate AllDigits(s: string) {
    forall i :: 0 <= i < |s| ==> IsDigit(s[i])
  }

  function DigitChar(d: nat): (c: char)
    requires d < 10
    ensures IsDigit(c) && c as int - '0' as int == d
  {
    (d + '0' as int) as char
  }

  /** `%d` / `%lu` of a non-negative value: decimal digits, most significant first. */
  function Decimal(n: nat): (r: string)
    ensures 1 <= |r|
    ensures AllDigits(r)
    ensures n > 0 ==> r[0] != '0'
  {
    if n < 10 then [DigitChar(n)] else Decimal(n / 10) + [DigitChar(n % 10)]
  }

  /** The value of a string of decimal digits. */
  function DigitsValue(s: string): nat
    requires AllDigits(s)
  {
    if |s| == 0 then 0 else DigitsValue(s[..|s| - 1]) * 10 + (s[|s| - 1] as int - '0' as int)
  }

  /** Reading back the digits `Decimal` writes gives the number written. */
  lemma {:induction false} DecimalValue(n: nat)
    ensures DigitsValue(Decimal(n)) == n
  {
    if n >= 10 {
      DecimalValue(n / 10);
      var d := Decimal(n);
      assert d[..|d| - 1] == Decimal(n / 10);
    }
  }

  /** Distinct numbers have distinct decimal renderings. */
  lemma DecimalInjective(a: nat, b: nat)
    ensures Decimal(a) == Decimal(b) <==> a == b
  {
    if Decimal(a) == Decimal(b) {
      DecimalValue(a);
      DecimalValue(b);
    }
  }

  /** Every `uint32_t` prints in at most ten digits. */
  lemma {:induction false} DecimalLength(n: nat, bound: nat, digits: nat)
    requires 1 <= digits
    requires bound == Pow10(digits)
    requires n < bound
    ensures |Decimal(n)| <= digits
    decreases digits
  {
    if n >= 10 {
      assert digits != 1 by { assert Pow10(1) == 10; }
      DecimalLength(n / 10, Pow10(digits - 1), digits - 1);
    }
  }

  function Pow10(k: nat): (r: nat)
    ensures r >= 1
  {
    if k == 0 then 1 else 10 * Pow10(k - 1)
  }

  lemma Uint32DecimalLength(n: uint32)
    ensures |Decimal(n)| <= 10
  {
    assert Pow10(10) == 10_000_000_000;
    DecimalLength(n, Pow10(10), 10);
  }

  /** `isspace` in the C locale. */
  predicate IsSpace(c: char) {
    c == ' ' || '\t' <= c <= '\r'
  }

  function SkipSpace(s: string): (r: string)
    ensures |r| <= |s| && r == s[|s| - |r|..]
    ensures |r| > 0 ==> !IsSpace(r[0])
  {
    if |s| > 0 && IsSpace(s[0]) then SkipSpace(s[1..]) else s
  }

  /** The longest prefix of decimal digits. */
  function LeadingDigits(s: string): (r: string)
    ensures r <= s && AllDigits(r)
    ensures |r| < |s| ==> !IsDigit(s[|r|])
  {
    if |s| > 0 && IsDigit(s[0]) then [s[0]] + LeadingDigits(s[1..]) else []
  }

  lemma {:induction false} LeadingDigitsOfDigits(s: string)
    requires AllDigits(s)
    ensures LeadingDigits(s) == s
  {
    if |s| > 0 {
      LeadingDigitsOfDigits(s[1..]);
    }
  }

  /** Saturation to the range of a 32-bit `long`. */
  function ClampInt32(v: int): (r: int)
    ensures INT32_MIN <= r <= INT32_MAX
    ensures INT32_MIN <= v <= INT32_MAX ==> r == v
  {
    if v > INT32_MAX then INT32_MAX else if v < INT32_MIN then INT32_MIN else v
  }

  /** `atoi` as the target's C library computes it, `(int) strtol(s, NULL, 10)` with a
      32-bit `long`: leading white space, an optional sign, then the longest run of
      digits; an out-of-range value saturates. */
  function Atoi(s: string): (r: int)
    ensures INT32_MIN <= r <= INT32_MAX
  {
    var t := SkipSpace(s);
    if |t| > 0 && t[0] == '-' then ClampInt32(-(DigitsValue(LeadingDigits(t[1..])) as int))
    else if |t| > 0 && t[0] == '+' then ClampInt32(DigitsValue(LeadingDigits(t[1..])))
    else ClampInt32(DigitsValue(LeadingDigits(t)))
  }

  /** `atoi` reads back what `%lu` wrote, as long as the value fits an `int`. */
  lemma AtoiDecimal(n: nat)
    requires n <= INT32_MAX
    ensures Atoi(Decimal(n)) == n
  {
    var d := Decimal(n);
    assert SkipSpace(d) == d;
    LeadingDigitsOfDigits(d);
    DecimalValue(n);
  }

  /** `tolower` in the C locale. */
  function ToLower(c: char): (r: char)
    ensures 'A' <= c <= 'Z' ==> 'a' <= r <= 'z' && r as int == c as int + 32
    ensures !('A' <= c <= 'Z') ==> r == c
  {
    if 'A' <= c <= 'Z' then (c as int + 32) as char else c
  }

  /** `strcasecmp(a, b) == 0`. */
  predicate EqualsIgnoreCase(a: string, b: string) {
    |a| == |b| && forall i :: 0 <= i < |a| ==> ToLower(a[i]) == ToLower(b[i])
  }

  /** `CHECK_FILE_EXTENSION(s, ext)`: compares the last `|ext|` characters of `s`,
      ignoring case. The macro indexes from `strlen(s) - strlen(ext)`, hence the precondition. */
  function EndsWithIgnoreCase(s: string, ext: string): (b: bool)
    requires |s| >= |ext|
    ensures b <==> forall i :: 0 <= i < |ext| ==> ToLower(s[|s| - |ext| + i]) == ToLower(ext[i])
    ensures s[|s| - |ext|..] == ext ==> b
  {
    EqualsIgnoreCase(s[|s| - |ext|..], ext)
  }
}
