// Numerals as print.c writes them and string.c reads them.
module Numbers {
  import opened Bytes

  const ZERO: byte := 48  // '0'

  /** The bases numbers are printed in. */
  type Radix = b: nat | b == 10 || b == 16 witness 10

  /** The digits of print_dec and print_hex_digit: '0' .. '9', then 'A' .. 'F'. */
  function DigitChar(d: nat): byte
    requires d < 16
  {
    if d < 10 then 48 + d else 65 + (d - 10)
  }

  /** The digits of `n`, most significant first, and none for 0. */
  function Body(n: nat, base: Radix): seq<byte>
  {
    if n == 0 then [] else Body(n / base, base) + [DigitChar(n % base)]
  }

  /** What is printed for `n`. */
  function Digits(n: nat, base: Radix): seq<byte>
  {
    if n == 0 then [ZERO] else Body(n, base)
  }

  /** What strtoul takes a character for; -1 when it is no digit at all. */
  function DigitOf(c: byte): int {
    if 48 <= c <= 57 then c - 48
    else if 65 <= c <= 90 then c - 65 + 10
    else if 97 <= c <= 122 then c - 97 + 10
    else -1
  }

  predicate IsDigit(c: byte, base: int) { 0 <= DigitOf(c) < base }

  /** Which characters are digits, and of what value: the decimal digits, and the letters of either case from 10 on. */
  lemma DigitMeaning(c: byte, j: nat, base: int)
    ensures IsDigit(c, 10) <==> 48 <= c <= 57
    ensures j < 10 && c == 48 + j ==> DigitOf(c) == j && (IsDigit(c, base) <==> j < base)
    ensures j < 26 && (c == 65 + j || c == 97 + j) ==>
              DigitOf(c) == 10 + j && (IsDigit(c, base) <==> 10 + j < base)
    ensures !(48 <= c <= 57) && !(65 <= c <= 90) && !(97 <= c <= 122) ==> !IsDigit(c, base)
  {
  }

  /** The printed digits, in order. */
  lemma DigitNames(d: nat)
    requires d < 16
    ensures DigitChar(d) as char == "0123456789ABCDEF"[d]
  {
  }

  /** The length of the longest prefix that is all digits of the base. */
  function PrefixLen(s: seq<byte>, base: int): (k: nat)
    ensures k <= |s|
    ensures forall j :: 0 <= j < k ==> IsDigit(s[j], base)
    ensures k < |s| ==> !IsDigit(s[k], base)
  {
    if s == [] || !IsDigit(s[0], base) then 0 else 1 + PrefixLen(s[1..], base)
  }

  function Horner(v: nat, base: nat, d: nat): nat { v * base + d }

  /** The number a digit string stands for, with no bound on it. */
  function Value(s: seq<byte>, base: int): nat
    requires forall j :: 0 <= j < |s| ==> IsDigit(s[j], base)
  {
    if s == [] then 0 else assert IsDigit(s[|s| - 1], base); Horner(Value(s[..|s| - 1], base), base, DigitOf(s[|s| - 1]))
  }

  // ----- printing and parsing undo each other -----

  lemma DivStep(n: nat, base: Radix)
    requires n > 0
    ensures n / base < n && 0 <= n % base < base && Horner(n / base, base, n % base) == n
    ensures n / base == 0 ==> n % base == n
  {
  }

  /** The last digit and what is left. */
  lemma BodyStep(n: nat, base: Radix) returns (m: nat, d: nat)
    requires n > 0
    ensures m < n && d < base && Horner(m, base, d) == n && (m == 0 ==> d == n)
    ensures Body(n, base) == Body(m, base) + [DigitChar(d)]
    ensures DigitOf(DigitChar(d)) == d && IsDigit(DigitChar(d), base) && (d > 0 ==> DigitChar(d) != ZERO)
  {
    m, d := n / base, n % base;
    DivStep(n, base);
  }

  lemma BodyZero(base: Radix)
    ensures Body(0, base) == [] && Value([], base) == 0
  {
  }

  lemma {:induction false} BodyDigits(n: nat, base: Radix)
    ensures forall j :: 0 <= j < |Body(n, base)| ==> IsDigit(Body(n, base)[j], base)
    ensures n > 0 ==> Body(n, base) != [] && Body(n, base)[0] != ZERO
  {
    hide *;
    BodyZero(base);
    if n > 0 {
      var m, d := BodyStep(n, base);
      BodyDigits(m, base);
    }
  }

  lemma ValueSnoc(s: seq<byte>, c: byte, base: nat)
    requires forall j :: 0 <= j < |s| ==> IsDigit(s[j], base)
    requires IsDigit(c, base)
    ensures Value(s + [c], base) == Horner(Value(s, base), base, DigitOf(c))
  {
    assert (s + [c])[..|s + [c]| - 1] == s;
  }

  lemma Shifted(a: nat, p: nat, b: nat, base: nat, d: nat)
    ensures Horner(a * p + b, base, d) == a * (base * p) + Horner(b, base, d)
  {
  }

  lemma OneDigit(t: seq<byte>, base: nat)
    requires forall j :: 0 <= j < |t| ==> IsDigit(t[j], base)
    ensures Value([], base) == 0
    ensures |t| == 1 ==> Value(t, base) == DigitOf(t[0])
  {
  }

  /** The value of two strings of digits in a row: the first one moves up by a power of the base. */
  lemma {:induction false} ValueConcat(s: seq<byte>, t: seq<byte>, base: nat)
    requires forall j :: 0 <= j < |s| ==> IsDigit(s[j], base)
    requires forall j :: 0 <= j < |t| ==> IsDigit(t[j], base)
    ensures Value([], base) == 0
    ensures |t| == 1 ==> Value(t, base) == DigitOf(t[0])
    ensures forall j :: 0 <= j < |s + t| ==> IsDigit((s + t)[j], base)
    ensures Value(s + t, base) == Value(s, base) * Pow(base, |t|) + Value(t, base)
  {
    hide Value, Horner, Pow;
    OneDigit(t, base);
    PowStep(base, |t|);
    if t == [] {
      assert s + t == s;
    } else {
      var u, c := t[..|t| - 1], t[|t| - 1];
      ValueConcat(s, u, base);
      assert s + t == (s + u) + [c] && t == u + [c];
      ValueSnoc(s + u, c, base);
      ValueSnoc(u, c, base);
      Shifted(Value(s, base), Pow(base, |u|), Value(u, base), base, DigitOf(c));
    }
  }

  lemma {:induction false} BodyValue(n: nat, base: Radix)
    ensures forall j :: 0 <= j < |Body(n, base)| ==> IsDigit(Body(n, base)[j], base)
    ensures Value(Body(n, base), base) == n
  {
    hide *;
    BodyZero(base);
    BodyDigits(n, base);
    if n > 0 {
      var m, d := BodyStep(n, base);
      BodyValue(m, base);
      ValueSnoc(Body(m, base), DigitChar(d), base);
    }
  }

  /** No leading zero, except for 0 itself; and the value of what is printed is the number. */
  lemma DigitsValue(n: nat, base: Radix)
    ensures var d := Digits(n, base);
            && d != [] && (n > 0 ==> d[0] != ZERO)
            && (forall j :: 0 <= j < |d| ==> IsDigit(d[j], base))
            && Value(d, base) == n
  {
    BodyDigits(n, base);
    BodyValue(n, base);
    if n == 0 {
      assert [ZERO][..0] == [];
    }
  }

  lemma {:induction false} PrefixOf(d: seq<byte>, rest: seq<byte>, base: int)
    requires forall j :: 0 <= j < |d| ==> IsDigit(d[j], base)
    requires rest != [] ==> !IsDigit(rest[0], base)
    ensures PrefixLen(d + rest, base) == |d|
  {
    if d == [] {
      assert d + rest == rest;
    } else {
      assert (d + rest)[1..] == d[1..] + rest;
      PrefixOf(d[1..], rest, base);
    }
  }

  /** Reading back what was printed, up to the first character that is no digit, gives the number. */
  lemma ParseUndoesPrint(n: nat, base: Radix, rest: seq<byte>)
    requires rest != [] ==> !IsDigit(rest[0], base)
    ensures var s := Digits(n, base) + rest;
            PrefixLen(s, base) == |Digits(n, base)| && Value(s[..PrefixLen(s, base)], base) == n
  {
    DigitsValue(n, base);
    PrefixOf(Digits(n, base), rest, base);
    assert (Digits(n, base) + rest)[..|Digits(n, base)|] == Digits(n, base);
  }

  // ----- lengths -----

  lemma MulOrder(m: nat, p: nat, base: nat)
    ensures m >= p ==> m * base >= p * base
  {
  }

  lemma HornerLess(m: nat, base: nat, d: nat, p: nat)
    requires Horner(m, base, d) < base * p
    ensures m < p
  {
    MulOrder(m, p, base);
  }

  lemma {:induction false} BodyLength(n: nat, base: Radix, k: nat)
    requires n < Pow(base, k)
    ensures |Body(n, base)| <= k
  {
    hide *;
    BodyZero(base);
    PowStep(base, k);
    if n > 0 {
      var m, d := BodyStep(n, base);
      HornerLess(m, base, d, Pow(base, k - 1));
      BodyLength(m, base, k - 1);
    }
  }

  lemma TenDigits(n: uint32)
    ensures |Body(n, 10)| <= 10
  {
    assert Pow(10, 5) == 100000;
    assert Pow(10, 10) == 10 * (10 * (10 * (10 * (10 * Pow(10, 5)))));
    BodyLength(n, 10, 10);
  }

  // ----- the 32-bit Horner step -----

  lemma MulApart(x: int, m: int)
    requires m > 0
    ensures x >= 1 ==> x * m >= m
    ensures x <= -1 ==> x * m <= -m
  {
  }

  lemma ModUnique(y: int, k: int, r: int, m: int)
    requires 0 <= r < m && y == k * m + r
    ensures y % m == r
  {
    var j, t := y / m, y % m;
    assert (k - j) * m == t - r;
    MulApart(k - j, m);
  }

  lemma HornerMod(v: nat, base: nat, d: nat, m: nat)
    requires m > 0
    ensures Horner(v % m, base, d) % m == Horner(v, base, d) % m
  {
    var q, r := v / m, v % m;
    var x := Horner(r, base, d);
    var a, t := x / m, x % m;
    assert Horner(v, base, d) == (q * base + a) * m + t by {
      assert (q * m + r) * base == (q * base) * m + r * base;
      assert x == a * m + t;
      assert (q * base + a) * m == (q * base) * m + a * m;
    }
    ModUnique(Horner(v, base, d), q * base + a, t, m);
  }

  lemma PrefixIs(s: seq<byte>, k: nat, base: int)
    requires k < |s| && !IsDigit(s[k], base)
    requires forall j :: 0 <= j < k ==> IsDigit(s[j], base)
    ensures PrefixLen(s, base) == k
  {
  }

  /** strtoul on a string object: the value of its longest digit prefix modulo 2^32, and where that prefix ends. */
  method Strtoul(str: seq<byte>, base: int) returns (result: uint32, endptr: nat)
    requires 0 in str
    ensures endptr == PrefixLen(str, base) < |str|
    ensures result == Value(str[..endptr], base) % U32
    ensures base == 10 ==> (forall j :: 0 <= j < endptr ==> 48 <= str[j] <= 57) && !(48 <= str[endptr] <= 57)
  {
    result := 0;
    var i := 0;
    while str[i] != 0
      invariant i < |str| && 0 !in str[..i]
      invariant forall j :: 0 <= j < i ==> IsDigit(str[j], base)
      invariant result == Value(str[..i], base) % U32
      decreases |str| - i
    {
      var digit;
      if 48 <= str[i] <= 57 {
        digit := str[i] - 48;
      } else if 65 <= str[i] <= 90 {
        digit := str[i] - 65 + 10;
      } else if 97 <= str[i] <= 122 {
        digit := str[i] - 97 + 10;
      } else {
        break;
      }
      if digit >= base {
        break;
      }
      HornerMod(Value(str[..i], base), base, digit, U32);
      assert str[..i + 1][..i] == str[..i];
      result := Horner(result, base, digit) % U32;
      i := i + 1;
      assert str[..|str|] == str;
    }
    PrefixIs(str, i, base);
    return result, i;
  }
}
