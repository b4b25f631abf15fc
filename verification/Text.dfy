/** Text as the C library prints and reads it: C strings, filled buffers, and numbers in a base. */
module Text {

  datatype Option<+T> = None | Some(value: T)

  // ----- C ints

  const INT_MAX := 0x7fff_ffff

  type Int32 = i: int | -0x8000_0000 <= i <= INT_MAX

  /** The value a C int holds after an operation that left the int range (two's complement). */
  function Wrap32(i: int): (r: Int32)
    ensures (i - r) % 0x1_0000_0000 == 0
  {
    (i + 0x8000_0000) % 0x1_0000_0000 - 0x8000_0000
  }

  /** Wrapping on the way to a sum does not change what the sum wraps to. */
  lemma WrapSum(a: int, b: int)
    ensures Wrap32(Wrap32(a) + b) == Wrap32(a + b)
  {
  }

  function Max(a: int, b: int): (r: int)
    ensures r >= a && r >= b && (r == a || r == b)
  {
    if a < b then b else a
  }

  function Min(a: int, b: int): (r: int)
    ensures r <= a && r <= b && (r == a || r == b)
  {
    if a < b then a else b
  }

  /** memset(buf, 70, n): n bytes 'F'. */
  function Fill(n: nat): (s: string)
    ensures |s| == n
    ensures forall i :: 0 <= i < n ==> s[i] == 'F'
  {
    seq(n, _ => 'F')
  }

  /** What "%s" reads: the bytes in front of the first NUL. */
  function CString(s: string): (t: string)
    ensures |t| <= |s|
  {
    if s == "" || s[0] == '\0' then "" else [s[0]] + CString(s[1..])
  }

  lemma {:induction false} CStringStopsAtNul(t: string, rest: string)
    requires '\0' !in t
    ensures CString(t + "\0" + rest) == t
  {
    var s := t + "\0" + rest;
    if t != "" {
      CStringStopsAtNul(t[1..], rest);
      assert s[1..] == t[1..] + "\0" + rest;
    } else {
      assert s[0] == '\0';
    }
  }

  /** What snprintf returns for an expanded text: its length, or -1 where that is no int. */
  function Printed(text: string): Int32 {
    if |text| <= INT_MAX then |text| else -1
  }

  // ----- numbers

  const DIGITS := "0123456789abcdef"

  /** "%d" and "%lx" of a non-negative number: no leading zeros, lower-case letters. */
  function Print(n: nat, base: nat): (s: string)
    requires 2 <= base <= 16
    ensures s != ""
  {
    if n < base then [DIGITS[n]]
    else
      assert n / base < n by { DivBelow(n, base, n); }
      Print(n / base, base) + [DIGITS[n % base]]
  }

  /** "%d" of an int. */
  function PrintInt(i: int): string {
    if i < 0 then "-" + Print(-i, 10) else Print(i, 10)
  }

  /** The value of one digit; either case is read. */
  function DigitValue(c: char): Option<nat> {
    if '0' <= c <= '9' then Some((c - '0') as nat)
    else if 'a' <= c <= 'f' then Some((c - 'a') as nat + 10)
    else if 'A' <= c <= 'F' then Some((c - 'A') as nat + 10)
    else None
  }

  /** Reads a non-empty string of digits of the base. */
  function ReadNumber(s: string, base: nat): Option<nat> {
    if s == "" then None
    else
      var last := DigitValue(s[|s| - 1]);
      if last.None? || last.value >= base then None
      else if |s| == 1 then last
      else
        var front := ReadNumber(s[..|s| - 1], base);
        if front.None? then None else Some(front.value * base + last.value)
  }

  lemma DigitRoundTrip(d: nat)
    requires d < 16
    ensures DigitValue(DIGITS[d]) == Some(d)
    ensures DIGITS[d] != '\r' && DIGITS[d] != '\0' && DIGITS[d] != '-'
    ensures ('0' <= DIGITS[d] <= '9' || 'a' <= DIGITS[d] <= 'f') && (d > 0 ==> DIGITS[d] != '0')
  {
  }

  /** The quotient and the last digit that printing works with. */
  lemma Split(n: nat, base: nat) returns (q: nat, d: nat)
    requires 2 <= base <= n
    ensures q == n / base && d == n % base
    ensures q * base + d == n && d < base && q < n
  {
    q, d := n / base, n % base;
  }

  lemma ParseSnoc(front: string, q: nat, d: nat, base: nat)
    requires 2 <= base <= 16 && d < base && ReadNumber(front, base) == Some(q)
    ensures ReadNumber(front + [DIGITS[d]], base) == Some(q * base + d)
  {
    DigitRoundTrip(d);
    assert (front + [DIGITS[d]])[..|front|] == front;
  }

  lemma {:induction false} ParsePrint(n: nat, base: nat)
    requires 2 <= base <= 16
    ensures ReadNumber(Print(n, base), base) == Some(n)
  {
    if n < base {
      DigitRoundTrip(n);
    } else {
      var q, d := Split(n, base);
      ParsePrint(q, base);
      ParseSnoc(Print(q, base), q, d, base);
    }
  }

  /** Digits only: no carriage return, no NUL, no sign. */
  predicate IsPlain(s: string) {
    forall i :: 0 <= i < |s| ==> s[i] != '\r' && s[i] != '\0' && s[i] != '-'
  }

  lemma {:induction false} PrintIsPlain(n: nat, base: nat)
    requires 2 <= base <= 16
    ensures IsPlain(Print(n, base))
  {
    if n < base {
      DigitRoundTrip(n);
    } else {
      var q, d := Split(n, base);
      DigitRoundTrip(d);
      PrintIsPlain(q, base);
    }
  }

  /** Lower-case digits, and no leading zero. */
  lemma {:induction false} PrintIsLowerCase(n: nat, base: nat)
    requires 2 <= base <= 16
    ensures var s := Print(n, base);
            && (forall i :: 0 <= i < |s| ==> '0' <= s[i] <= '9' || 'a' <= s[i] <= 'f') && (n > 0 ==> s[0] != '0')
  {
    if n < base {
      DigitRoundTrip(n);
    } else {
      var q, d := Split(n, base);
      DigitRoundTrip(d);
      PrintIsLowerCase(q, base);
      assert q > 0;
    }
  }

  function Pow(b: nat, k: nat): nat {
    if k == 0 then 1 else b * Pow(b, k - 1)
  }

  lemma {:induction false} PowPositive(b: nat, k: nat)
    requires b > 0
    ensures Pow(b, k) > 0
  {
    if k > 0 {
      PowPositive(b, k - 1);
    }
  }

  /** k digits hold exactly the numbers below base^k. */
  lemma {:induction false} PrintLength(n: nat, base: nat, k: nat)
    requires 2 <= base <= 16 && 1 <= k
    ensures |Print(n, base)| <= k <==> n < Pow(base, k)
  {
    assert Pow(base, k) == base * Pow(base, k - 1);
    PowPositive(base, k - 1);
    if n < base {
      MulAtLeast(base, Pow(base, k - 1));
    } else if k == 1 {
      assert Pow(base, 0) == 1;
    } else {
      var q, d := Split(n, base);
      PrintLength(q, base, k - 1);
      QuotientBelow(n, base, q, d, Pow(base, k - 1));
    }
  }

  lemma MulAtLeast(a: nat, m: nat)
    requires m > 0
    ensures a * m >= a
  {
  }

  lemma QuotientBelow(n: nat, base: nat, q: nat, d: nat, m: nat)
    requires n == q * base + d && d < base
    ensures q < m <==> n < base * m
  {
    if q < m {
      MulMonotone(q + 1, m, base);
    } else {
      MulMonotone(m, q, base);
    }
  }

  lemma MulMonotone(a: nat, b: nat, s: nat)
    requires a <= b
    ensures a * s <= b * s
  {
  }

  lemma DivBelow(n: nat, b: nat, m: nat)
    requires b > 0 && n < b * m
    ensures n / b < m
  {
    var q := n / b;
    assert b * q <= n;
    MulCancel(b, q, m);
  }

  lemma MulCancel(b: nat, q: nat, m: nat)
    requires b * q < b * m
    ensures q < m
  {
  }

  lemma QuotientIs(n: nat, s: nat, p: nat)
    requires s > 0 && p * s <= n < (p + 1) * s
    ensures n / s == p
  {
    var q := n / s;
    assert q * s <= n < (q + 1) * s;
    if q < p {
      MulMonotone(q + 1, p, s);
    } else if p < q {
      MulMonotone(p + 1, q, s);
    }
  }

  lemma DivDiv(n: nat, a: nat, p: nat)
    requires a > 0 && p > 0
    ensures a * p > 0 && n / (a * p) == n / a / p
  {
    var m := n / a;
    var q := m / p;
    DivBounds(n, a);
    DivBounds(m, p);
    DivDivBounds(n, a, p, m, q);
    MulAtLeast(a, p);
    QuotientIs(n, a * p, q);
  }

  lemma DivBounds(n: nat, a: nat)
    requires a > 0
    ensures (n / a) * a <= n < (n / a + 1) * a
  {
  }

  lemma DivDivBounds(n: nat, a: nat, p: nat, m: nat, q: nat)
    requires q * p <= m < (q + 1) * p && m * a <= n < (m + 1) * a
    ensures q * (a * p) <= n < (q + 1) * (a * p)
  {
    MulMonotone(q * p, m, a);
    MulMonotone(m + 1, (q + 1) * p, a);
    MulAssociates(q, p, a);
    MulAssociates(q + 1, p, a);
  }

  lemma MulAssociates(q: nat, p: nat, a: nat)
    ensures (q * p) * a == q * (a * p)
  {
  }

  lemma QuotientAtMost(n: nat, b: nat)
    requires b > 0
    ensures n / b <= n
  {
    assert b * (n + 1) == n + 1 + (b - 1) * (n + 1);
    DivBelow(n, b, n + 1);
  }

  lemma DivMonotone(m: nat, n: nat, b: nat)
    requires b > 0 && m <= n
    ensures m / b <= n / b
  {
    assert m < b * (n / b + 1);
    DivBelow(m, b, n / b + 1);
  }

  /** A larger number never prints shorter. */
  lemma {:induction false} PrintMonotone(m: nat, n: nat, base: nat)
    requires 2 <= base <= 16 && m <= n
    ensures |Print(m, base)| <= |Print(n, base)|
  {
    if m >= base {
      DivMonotone(m, n, base);
      var q, d := Split(m, base);
      var q', d' := Split(n, base);
      PrintMonotone(q, q', base);
    }
  }

  /** Parsing rejects a sign. */
  lemma {:induction false} SignIsNoDigit(s: string, base: nat)
    requires base <= 16
    ensures ReadNumber("-" + s, base) == None
  {
    var t := "-" + s;
    if s != "" {
      assert t[..|t| - 1] == "-" + s[..|s| - 1];
      SignIsNoDigit(s[..|s| - 1], base);
    } else {
      assert t == "-";
    }
  }
}
