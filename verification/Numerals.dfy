/** Positional numerals, and the digit loop of `__ltostr` and `__lltostr`. */
module Numerals {

  // ---- digits ----

  function DigitChar(d: nat, up: bool): (c: char)
    requires d < 36
    ensures DigitValue(c) == d
    ensures c == '0' <==> d == 0
    ensures if up then !('a' <= c <= 'z') else !('A' <= c <= 'Z')
  {
    if d < 10 then '0' + d as char else (if up then 'A' else 'a') + (d - 10) as char
  }

  function DigitValue(c: char): nat {
    if '0' <= c <= '9' then (c - '0') as nat
    else if 'a' <= c <= 'z' then (c - 'a') as nat + 10
    else if 'A' <= c <= 'Z' then (c - 'A') as nat + 10
    else 0
  }

  /** The number a digit string stands for, most significant digit first. */
  function Value(s: string, base: nat): nat {
    if s == [] then 0 else Value(s[..|s| - 1], base) * base + DigitValue(s[|s| - 1])
  }

  function Pow(b: nat, k: nat): nat {
    if k == 0 then 1 else b * Pow(b, k - 1)
  }

  function Quot(i: nat, b: nat): nat
    requires b >= 1
  {
    i / b
  }

  function Rem(i: nat, b: nat): (r: nat)
    requires b >= 1
    ensures r < b
  {
    i % b
  }

  /** The numeral of `i`; empty for 0. */
  function Digits(i: nat, base: nat, up: bool): string
    requires 2 <= base <= 36
  {
    if i == 0 then [] else
      assert Quot(i, base) < i by { DivLess(i, base); }
      Digits(Quot(i, base), base, up) + [DigitChar(Rem(i, base), up)]
  }

  function Numeral(i: nat, base: nat, up: bool): string
    requires 2 <= base <= 36
  {
    if i == 0 then "0" else Digits(i, base, up)
  }

  /** At most the `k` low-order digits of `i`, as the loop writes them from the right. */
  function LowDigits(i: nat, base: nat, k: nat, up: bool): (s: string)
    requires 1 <= base <= 36
    ensures |s| <= k
    decreases k
  {
    if k == 0 || i == 0 then [] else LowDigits(Quot(i, base), base, k - 1, up) + [DigitChar(Rem(i, base), up)]
  }

  // ---- what numerals mean ----

  lemma DivLess(i: nat, base: nat)
    requires i > 0 && base >= 2
    ensures i / base < i
  {
    if i / base >= i {
      assert base * (i / base) >= 2 * i by { MulMono(base, 2, i / base, i); }
    }
  }

  lemma MulMono(a: nat, b: nat, x: nat, y: nat)
    requires a >= b && x >= y
    ensures a * x >= b * y
  {
    assert a * x - b * y == (a - b) * x + b * (x - y);
  }

  lemma PowPos(b: nat, k: nat)
    requires b >= 1
    ensures Pow(b, k) >= 1
  {
    if k > 0 {
      PowPos(b, k - 1);
      MulMono(b, 1, Pow(b, k - 1), 1);
    }
  }

  lemma ValueSnoc(s: string, c: char, base: nat)
    ensures Value(s + [c], base) == Value(s, base) * base + DigitValue(c)
  {
    assert (s + [c])[..|s|] == s;
  }

  lemma EmptyValue(base: nat)
    ensures Value("", base) == 0
  {
  }

  /** A numeral reads back as its number. */
  lemma {:induction false} DigitsValue(i: nat, base: nat, up: bool)
    requires 2 <= base <= 36
    ensures Value(Digits(i, base, up), base) == i
  {
    hide DigitChar, DigitValue, Value, Quot, Rem;
    if i == 0 {
      EmptyValue(base);
    } else {
      var q, c := Quot(i, base), DigitChar(Rem(i, base), up);
      LastDigit(i, base);
      DigitsValue(q, base, up);
      ValueSnoc(Digits(q, base, up), c, base);
      assert Digits(i, base, up) == Digits(q, base, up) + [c];
    }
  }

  ghost predicate DigitOf(c: char, base: nat, up: bool)
    requires base <= 36
  {
    exists d :: 0 <= d < base && c == DigitChar(d, up)
  }

  lemma LastDigit(i: nat, base: nat)
    requires i > 0 && base >= 2
    ensures Quot(i, base) < i && (Quot(i, base) == 0 ==> Rem(i, base) == i)
    ensures i == Quot(i, base) * base + Rem(i, base)
  {
    DivLess(i, base);
  }

  /** It has no leading zero. */
  lemma {:induction false} NoLeadingZero(i: nat, base: nat, up: bool)
    requires 2 <= base <= 36 && i > 0
    ensures Digits(i, base, up) != [] && Digits(i, base, up)[0] != '0'
  {
    hide DigitChar, Quot, Rem;
    var q, c := Quot(i, base), DigitChar(Rem(i, base), up);
    LastDigit(i, base);
    var s := Digits(q, base, up);
    assert Digits(i, base, up) == s + [c];
    if q > 0 { NoLeadingZero(q, base, up); }
  }

  /** It uses only digits of its base. */
  lemma {:induction false} DigitsOfBase(i: nat, base: nat, up: bool)
    requires 2 <= base <= 36
    ensures forall x :: 0 <= x < |Digits(i, base, up)| ==> DigitOf(Digits(i, base, up)[x], base, up)
  {
    hide DigitChar, Quot, Rem;
    if i > 0 {
      var q, c := Quot(i, base), DigitChar(Rem(i, base), up);
      LastDigit(i, base);
      DigitsOfBase(q, base, up);
      assert Digits(i, base, up) == Digits(q, base, up) + [c];
      assert DigitOf(c, base, up);
    }
  }

  lemma QuotientBelow(i: nat, base: nat, p: nat)
    requires base >= 1
    ensures i < base * p <==> Quot(i, base) < p
  {
    var q := Quot(i, base);
    assert i == base * q + i % base;
    if q >= p {
      MulMono(base, base, q, p);
    } else {
      MulMono(base, base, p, q + 1);
      assert base * (q + 1) == base * q + base;
    }
  }

  /** With room for all digits the loop writes the numeral. */
  lemma {:induction false} LowDigitsFit(i: nat, base: nat, k: nat, up: bool)
    requires 2 <= base <= 36 && i < Pow(base, k)
    ensures LowDigits(i, base, k, up) == Digits(i, base, up)
    decreases k
  {
    hide DigitChar, Quot, Rem;
    if i > 0 {
      QuotientBelow(i, base, Pow(base, k - 1));
      LowDigitsFit(Quot(i, base), base, k - 1, up);
    }
  }

  /** Without it, the loop keeps exactly the low-order digits: the result is the number
      modulo `base^k`, written with all `k` digits. */
  lemma {:induction false} LowDigitsCut(i: nat, base: nat, k: nat, up: bool)
    requires 2 <= base <= 36 && i >= Pow(base, k)
    ensures |LowDigits(i, base, k, up)| == k
    ensures Pow(base, k) >= 1 && Value(LowDigits(i, base, k, up), base) == i % Pow(base, k)
    decreases k
  {
    PowPos(base, k);
    if k > 0 {
      var q, r, p := Quot(i, base), Rem(i, base), Pow(base, k - 1);
      PowPos(base, k - 1);
      QuotientBelow(i, base, p);
      LowDigitsCut(q, base, k - 1, up);
      var s := LowDigits(i, base, k, up);
      assert s[..|s| - 1] == LowDigits(q, base, k - 1, up);
      ModStep(i, base, p);
    }
  }

  /** `i mod (base * p)` in terms of the quotient by `base`. */
  lemma ModStep(i: nat, base: nat, p: nat)
    requires base >= 1 && p >= 1
    ensures base * p >= 1
    ensures i % (base * p) == (Quot(i, base) % p) * base + Rem(i, base)
  {
    MulMono(base, 1, p, 1);
    var q, r := Quot(i, base), Rem(i, base);
    var t, u := q / p, q % p;
    ProductOfParts(base, p, q, t, u, r);
    DivUnique(i, base * p, t, u * base + r);
  }

  lemma ProductOfParts(base: nat, p: nat, q: nat, t: nat, u: nat, r: nat)
    requires r < base && u < p && q == p * t + u
    ensures base * q + r == (base * p) * t + (u * base + r)
    ensures u * base + r < base * p
  {
    assert base * (p * t) == (base * p) * t;
    assert base * (p * t + u) == base * (p * t) + base * u;
    MulMono(base, base, p, u + 1);
    assert base * (u + 1) == u * base + base;
  }

  lemma DivUnique(i: nat, m: nat, t: nat, rem: nat)
    requires m >= 1 && i == m * t + rem && rem < m
    ensures i % m == rem
  {
    assert i == m * (i / m) + i % m;
    SameQuotient(m, i / m, i % m, t, rem);
  }

  lemma SameQuotient(m: nat, q: nat, r: nat, t: nat, u: nat)
    requires r < m && u < m && m * q + r == m * t + u
    ensures r == u
  {
    assert m * (t + 1) == m * t + m && m * (q + 1) == m * q + m;
    if q > t { MulMono(m, m, q, t + 1); } else if q < t { MulMono(m, m, t, q + 1); }
  }

  // ---- the loop ----

  /** The base the code works with. */
  function UsedBase(base: nat): (b: nat)
    ensures base != 1 ==> 2 <= b <= 36
  {
    if base == 0 || base > 36 then 10 else base
  }

  /** What ends up at `s`. */
  function Text(size: nat, i: nat, base: nat, up: bool): string
    requires size >= 1
  {
    if i == 0 then "0" else LowDigits(i, UsedBase(base), size - 1, up)
  }

  /** Base 0 and bases above 36 count as 10. */
  lemma OtherBases(size: nat, i: nat, base: nat, up: bool)
    requires size >= 1 && (base == 0 || base > 36)
    ensures Text(size, i, base, up) == Text(size, i, 10, up)
  {
  }

  /** The digit loop: fills in at most `end - s` digits of `i`, right to left. */
  method FillDigits(a: array<char>, s: nat, end: nat, i: nat, b: nat, up: bool) returns (tmp: nat)
    requires s <= end <= a.Length && 1 <= b <= 36
    modifies a
    ensures s <= tmp <= end && a[tmp..end] == LowDigits(i, b, end - s, up)
    ensures forall x :: 0 <= x < a.Length && !(s <= x < end) ==> a[x] == old(a[x])
  {
    hide DigitChar, Quot, Rem;
    tmp := end;
    var n: nat := i;
    while tmp > s && n != 0
      invariant s <= tmp <= end
      invariant LowDigits(i, b, end - s, up) == LowDigits(n, b, tmp - s, up) + a[tmp..end]
      invariant forall x :: 0 <= x < a.Length && !(s <= x < end) ==> a[x] == old(a[x])
      decreases tmp
    {
      var c, q := DigitChar(Rem(n, b), up), Quot(n, b);
      ghost var done := a[tmp..end];
      assert LowDigits(n, b, tmp - s, up) == LowDigits(q, b, tmp - s - 1, up) + [c];
      tmp := tmp - 1;
      a[tmp] := c;
      assert a[tmp..end] == [c] + done;
      n := q;
    }
  }

  /** `memmove` to a lower address. */
  method MoveDown(a: array<char>, to: nat, from: nat, n: nat)
    requires to <= from && from + n <= a.Length
    modifies a
    ensures a[to..to + n] == old(a[from..from + n])
    ensures forall x :: 0 <= x < a.Length && !(to <= x < to + n) ==> a[x] == old(a[x])
  {
    ghost var was, gap := a[..], from - to;
    for k := 0 to n
      invariant forall x :: to <= x < to + k ==> a[x] == was[x + gap]
      invariant forall x :: 0 <= x < a.Length && !(to <= x < to + k) ==> a[x] == was[x]
    {
      a[to + k] := a[from + k];
    }
    assert a[to..to + n] == was[from..from + n];
  }

  /** `__ltostr` on the `size` characters of `a` from index `s`, digits filled in from the right and
      then moved down.  Room for one digit is needed to write a zero. */
  method LongToString(a: array<char>, s: nat, size: nat, i: nat, base: nat, up: bool) returns (j: nat)
    requires s + size <= a.Length && size >= 1 && (i == 0 ==> size >= 2)
    modifies a
    ensures j == |Text(size, i, base, up)| < size
    ensures a[s..s + j] == Text(size, i, base, up) && a[s + j] == '\0'
    ensures forall x :: 0 <= x < a.Length && !(s <= x < s + size) ==> a[x] == old(a[x])
  {
    hide LowDigits;
    var end := s + size - 1;
    var tmp := RightAligned(a, s, end, i, base, up);
    j := end - tmp;
    ghost var text := a[tmp..end + 1];
    MoveDown(a, s, tmp, j + 1);
    assert a[s..s + j] == text[..j];
    assert a[s + j] == a[s..s + j + 1][j];
  }

  /** The text and its terminator, flush with index `end`. */
  method RightAligned(a: array<char>, s: nat, end: nat, i: nat, base: nat, up: bool) returns (tmp: nat)
    requires s <= end < a.Length && (i == 0 ==> s < end)
    modifies a
    ensures s <= tmp <= end && a[tmp..end + 1] == Text(end - s + 1, i, base, up) + ['\0']
    ensures |Text(end - s + 1, i, base, up)| == end - tmp
    ensures forall x :: 0 <= x < a.Length && !(s <= x <= end) ==> a[x] == old(a[x])
  {
    hide LowDigits;
    a[end] := '\0';
    if i == 0 {
      tmp := end - 1;
      a[tmp] := '0';
      assert a[tmp..end + 1] == ['0', '\0'];
    } else {
      tmp := FillDigits(a, s, end, i, UsedBase(base), up);
      assert a[tmp..end + 1] == a[tmp..end] + [a[end]];
    }
  }

  /** When the number fits, the text is its numeral: it reads back, and only zero starts with '0'. */
  lemma TextReadsBack(size: nat, i: nat, base: nat, up: bool)
    requires size >= 2 && 2 <= base <= 36 && i < Pow(base, size - 1)
    ensures var t := Text(size, i, base, up);
      && t == Numeral(i, base, up)
      && Value(t, base) == i
      && t != [] && (t[0] == '0' <==> i == 0)
  {
    LowDigitsFit(i, base, size - 1, up);
    DigitsValue(i, base, up);
    if i > 0 { NoLeadingZero(i, base, up); }
    if i == 0 {
      assert "0"[..0] == [];
    }
  }
}
