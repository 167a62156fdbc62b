/**
  The numeric reading of the application name: wcstoull with base 0, as
  the C library defines it.  Leading white space is skipped, an optional
  sign is read, a `0x`/`0X` prefix followed by a hexadecimal digit selects
  base 16, a leading `0` selects base 8 and anything else base 10; the
  longest run of digits of that base is the value.  A value above the
  64-bit range saturates to its maximum, and a minus sign negates modulo
  2^64.  With no digits at all the result is 0.
*/
module AppId {

  const U64_MAX: nat := 0xFFFF_FFFF_FFFF_FFFF

  /** The white-space characters skipped before the number: space, and tab
      through carriage return. */
  predicate IsSpace(c: char) {
    c == ' ' || '\t' <= c <= '\r'
  }

  /** The value of a digit character in bases up to 36; 36 for anything else. */
  function DigitValue(c: char): nat {
    if '0' <= c <= '9' then c as int - '0' as int
    else if 'a' <= c <= 'z' then c as int - 'a' as int + 10
    else if 'A' <= c <= 'Z' then c as int - 'A' as int + 10
    else 36
  }

  predicate IsDigitIn(c: char, base: nat) {
    DigitValue(c) < base
  }

  /** The first index at or after `i` that is not white space. */
  function SkipSpace(s: seq<char>, i: nat): (j: nat)
    requires i <= |s|
    ensures i <= j <= |s|
    ensures j < |s| ==> !IsSpace(s[j])
    decreases |s| - i
  {
    if i < |s| && IsSpace(s[i]) then SkipSpace(s, i + 1) else i
  }

  /** The length of the run of base-`base` digits starting at `i`. */
  function DigitRun(s: seq<char>, i: nat, base: nat): (n: nat)
    requires i <= |s|
    ensures i + n <= |s|
    ensures forall k :: i <= k < i + n ==> IsDigitIn(s[k], base)
    ensures i + n < |s| ==> !IsDigitIn(s[i + n], base)
    decreases |s| - i
  {
    if i < |s| && IsDigitIn(s[i], base) then 1 + DigitRun(s, i + 1, base) else 0
  }

  /** The value of a digit string, most significant digit first. */
  function ValueOf(ds: seq<char>, base: nat): nat {
    if ds == [] then 0 else ValueOf(ds[..|ds| - 1], base) * base + DigitValue(ds[|ds| - 1])
  }

  /** The base wcstoull picks and the index where the digits start, given
      the index `j` just after the optional sign. */
  function BaseAndStart(s: seq<char>, j: nat): (r: (nat, nat))
    requires j <= |s|
    ensures r.1 <= |s|
  {
    if j + 2 < |s| && s[j] == '0' && (s[j + 1] == 'x' || s[j + 1] == 'X') && IsDigitIn(s[j + 2], 16) then (16, j + 2)
    else if j < |s| && s[j] == '0' then (8, j)
    else (10, j)
  }

  /** wcstoull(s, &end, 0) as an unsigned 64-bit value. */
  function ParseAppId(s: seq<char>): (r: nat)
    ensures r <= U64_MAX
  {
    var i := SkipSpace(s, 0);
    var neg := i < |s| && s[i] == '-';
    var j := if i < |s| && (s[i] == '-' || s[i] == '+') then i + 1 else i;
    var bs := BaseAndStart(s, j);
    var n := DigitRun(s, bs.1, bs.0);
    var v := ValueOf(s[bs.1..bs.1 + n], bs.0);
    if v > U64_MAX then U64_MAX
    else if neg then (U64_MAX + 1 - v) % (U64_MAX + 1)
    else v
  }

  /** The lower-case digit character for `d`. */
  function DigitChar(d: nat): char
    requires d < 16
  {
    if d < 10 then ('0' as int + d) as char else ('a' as int + d - 10) as char
  }

  lemma DigitCharValue(d: nat)
    requires d < 16
    ensures DigitValue(DigitChar(d)) == d
  {
  }

  /** Division by the base leaves a smaller, positive quotient. */
  lemma DivStep(n: nat, base: nat)
    requires 2 <= base <= n
    ensures 0 < n / base < n && n % base < base
    ensures n == n / base * base + n % base
  {
    var q := n / base;
    var r := n % base;
    assert n == q * base + r;
    assert q * base >= q * 2 by {
      MulMonotone(q, 2, base);
    }
  }

  lemma {:induction false} MulMonotone(q: nat, a: nat, b: nat)
    requires a <= b
    ensures q * a <= q * b
    decreases q
  {
    if q > 0 {
      MulMonotone(q - 1, a, b);
      assert q * a == (q - 1) * a + a;
      assert q * b == (q - 1) * b + b;
    }
  }

  /** `n` written in base `base` without leading zeros ("0" for zero). */
  function ToBase(n: nat, base: nat): (ds: seq<char>)
    requires 2 <= base <= 16
    ensures |ds| > 0
    ensures forall k :: 0 <= k < |ds| ==> IsDigitIn(ds[k], base)
    decreases n
  {
    if n < base then
      DigitCharValue(n);
      [DigitChar(n)]
    else
      DivStep(n, base);
      var d := n % base;
      DigitCharValue(d);
      var hi := ToBase(n / base, base);
      var ds := hi + [DigitChar(d)];
      assert forall k :: 0 <= k < |hi| ==> ds[k] == hi[k];
      ds
  }

  /** Reading back a number written in a base gives the number. */
  lemma {:induction false} ValueOfToBase(n: nat, base: nat)
    requires 2 <= base <= 16
    ensures ValueOf(ToBase(n, base), base) == n
    ensures n > 0 ==> ToBase(n, base)[0] != '0'
    decreases n
  {
    var ds := ToBase(n, base);
    if n < base {
      DigitCharValue(n);
      assert ds[..0] == [];
    } else {
      var q := n / base;
      var d := n % base;
      DivStep(n, base);
      DigitCharValue(d);
      ValueOfToBase(q, base);
      assert ds[..|ds| - 1] == ToBase(n / base, base);
      assert ds[0] == ToBase(n / base, base)[0];
    }
  }

  /** A string made only of digits is one run. */
  lemma {:induction false} WholeRun(s: seq<char>, i: nat, base: nat)
    requires i <= |s|
    requires forall k :: i <= k < |s| ==> IsDigitIn(s[k], base)
    ensures DigitRun(s, i, base) == |s| - i
    decreases |s| - i
  {
    if i < |s| {
      WholeRun(s, i + 1, base);
    }
  }

  /** A number written in decimal reads back as itself when it fits in 64
      bits, and as the maximum when it does not. */
  lemma DecimalRoundTrip(n: nat)
    ensures ParseAppId(ToBase(n, 10)) == if n <= U64_MAX then n else U64_MAX
  {
    if n == 0 {
      DecimalZero();
    } else {
      DecimalPositive(n);
    }
  }

  lemma DecimalZero()
    ensures ParseAppId(ToBase(0, 10)) == 0
  {
    var s := ToBase(0, 10);
    assert s == ['0'];
    assert SkipSpace(s, 0) == 0;
    assert BaseAndStart(s, 0) == (8, 0);
    assert DigitRun(s, 0, 8) == 1;
    assert s[0..1] == s;
    assert ValueOf(s, 8) == ValueOf([], 8) * 8 + 0;
  }

  lemma DecimalPositive(n: nat)
    requires n > 0
    ensures ParseAppId(ToBase(n, 10)) == if n <= U64_MAX then n else U64_MAX
  {
    var s := ToBase(n, 10);
    ValueOfToBase(n, 10);
    assert IsDigitIn(s[0], 10) && s[0] != '0';
    assert BaseAndStart(s, 0) == (10, 0);
    assert s[0..] == s;
    UnsignedDigits(s, 10, 0);
  }

  /** A number written in hexadecimal after `0x` reads back as itself when
      it fits in 64 bits. */
  lemma HexRoundTrip(n: nat)
    requires n <= U64_MAX
    ensures ParseAppId("0x" + ToBase(n, 16)) == n
  {
    var h := ToBase(n, 16);
    var s := "0x" + h;
    ValueOfToBase(n, 16);
    assert s[0] == '0' && s[1] == 'x' && s[2] == h[0];
    assert IsDigitIn(s[2], 16);
    assert BaseAndStart(s, 0) == (16, 2);
    assert s[2..] == h;
    UnsignedDigits(s, 16, 2);
  }

  /** A string with no leading space or sign, whose digits in the base it
      selects run to the end, reads as their value, saturated at U64_MAX. */
  lemma UnsignedDigits(s: seq<char>, base: nat, start: nat)
    requires s != [] && !IsSpace(s[0]) && s[0] != '-' && s[0] != '+'
    requires BaseAndStart(s, 0) == (base, start)
    requires forall k :: start <= k < |s| ==> IsDigitIn(s[k], base)
    ensures ParseAppId(s) == if ValueOf(s[start..], base) <= U64_MAX then ValueOf(s[start..], base) else U64_MAX
  {
    assert SkipSpace(s, 0) == 0;
    WholeRun(s, start, base);
    assert s[start..start + (|s| - start)] == s[start..];
  }

  /** A name that starts with anything other than white space, a sign or a
      decimal digit (a letter, `*`, `?`, ...) reads as id 0. */
  lemma NonNumericNameIsZero(s: seq<char>)
    requires |s| > 0 && !IsSpace(s[0]) && s[0] != '+' && s[0] != '-' && !IsDigitIn(s[0], 10)
    ensures ParseAppId(s) == 0
  {
    assert SkipSpace(s, 0) == 0;
    assert BaseAndStart(s, 0) == (10, 0);
    assert DigitRun(s, 0, 10) == 0;
  }
}
