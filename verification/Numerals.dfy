/** Printing and parsing of numerals: `int_to_str` and `str_to_int`. */
module Numerals {
  import opened Machine

  /** 2^63 */
  const HALF64: int := 0x8000_0000_0000_0000
  const MAX_INT_STR: int := 32

  predicate Int64(v: int) {
    -HALF64 <= v < HALF64
  }

  /** A result cut to 64 bits and read as signed. */
  function Wrap(x: int): int {
    (x + HALF64) % W64 - HALF64
  }

  /** C's division of int64 values by a positive base truncates toward zero. */
  function DivTrunc(a: int, base: int): int
    requires base > 0
  {
    if a >= 0 then a / base else -(-a / base)
  }

  function ModTrunc(a: int, base: int): int
    requires base > 0
  {
    a - base * DivTrunc(a, base)
  }

  function DigitChar(d: int): char
    requires 0 <= d < 36
  {
    if d > 9 then ('A' as int + (d - 10)) as char else ('0' as int + d) as char
  }

  /** The canonical numeral of a number that is not negative. */
  function Numeral(n: nat, base: nat): string
    requires 2 <= base <= 36
  {
    DivParts(n, base);
    if n < base then [DigitChar(n)] else Numeral(n / base, base) + [DigitChar(LastDigit(n, base))]
  }

  /** What `int_to_str` writes: a sign only for decimals. */
  function Text(v: int, base: nat): string
    requires 2 <= base <= 36
  {
    if v >= 0 then Numeral(v, base) else (if base == 10 then "-" else "") + Numeral(-v, base)
  }

  /** One round of either loop: the digit of val goes in front of what is written. */
  method PutDigit(tmp: array<char>, b: nat, val: int, base: nat) returns (b': nat, val': int)
    requires 2 <= base <= 36 && 0 < b <= MAX_INT_STR && tmp.Length == MAX_INT_STR + 1
    modifies tmp
    ensures b' == b - 1 && Abs(val') == Abs(val) / base && (val' > 0 ==> val > 0) && (val' < 0 ==> val < 0)
    ensures LastDigit(Abs(val), base) < 36 && tmp[MAX_INT_STR] == old(tmp[MAX_INT_STR])
    ensures tmp[b'..MAX_INT_STR] == [DigitChar(LastDigit(Abs(val), base))] + old(tmp[b..MAX_INT_STR])
  {
    TruncParts(val, base);
    var c := ModTrunc(val, base);
    b' := b - 1;
    tmp[b'] := if val >= 0 then DigitChar(c) else DigitChar(-c);
    val' := DivTrunc(val, base);
  }

  function LastDigit(n: nat, base: nat): (d: int)
    requires 2 <= base
    ensures 0 <= d < base
  {
    n % base
  }

  lemma TruncParts(v: int, base: nat)
    requires 2 <= base
    ensures ModTrunc(v, base) == if v >= 0 then LastDigit(v, base) else -LastDigit(-v, base)
    ensures Abs(DivTrunc(v, base)) == Abs(v) / base
    ensures (DivTrunc(v, base) > 0 ==> v > 0) && (DivTrunc(v, base) < 0 ==> v < 0)
  {
    DivParts(Abs(v), base);
    if v < 0 {
      assert base * -(-v / base) == -(base * (-v / base));
    }
  }

  /** The digits still to come and those written make up the whole numeral. */
  predicate Pending(n: nat, base: nat, whole: string, done: string)
    requires 2 <= base <= 36
  {
    whole == (if n == 0 then "" else Numeral(n, base)) + done
  }

  lemma FirstDigit(n: nat, base: nat)
    requires 2 <= base <= 36
    ensures 0 < |Numeral(n, base)| && Pending(n / base, base, Numeral(n, base), [DigitChar(LastDigit(n, base))])
  {
    DivParts(n, base);
  }

  lemma NextDigit(n: nat, base: nat, whole: string, done: string)
    requires 2 <= base <= 36 && n != 0 && Pending(n, base, whole, done)
    ensures |done| < |whole| && Pending(n / base, base, whole, [DigitChar(LastDigit(n, base))] + done)
  {
    FirstDigit(n, base);
    var d := [DigitChar(LastDigit(n, base))];
    var front := if n / base == 0 then "" else Numeral(n / base, base);
    assert whole == (front + d) + done == front + (d + done);
  }

  function Abs(v: int): nat {
    if v < 0 then -v else v
  }

  lemma DivParts(n: nat, base: nat)
    requires 2 <= base
    ensures n == base * (n / base) + n % base && 0 <= n % base < base
    ensures n < base <==> n / base == 0
    ensures n < base ==> n % base == n
    ensures n > 0 ==> n / base < n
  {
    var q := n / base;
    if q >= 1 {
      assert base * q >= base * 1 by { Larger(base, 1, q); }
      Larger(q, 2, base);
    }
  }

  lemma Larger(a: nat, b: nat, c: nat)
    requires b <= c
    ensures a * b <= a * c && b * a <= c * a
  {
  }

  /** The digits of v, written backwards from the end of the buffer. */
  method WriteDigits(tmp: array<char>, v: int, base: nat) returns (b: nat)
    requires 2 <= base <= 36 && tmp.Length == MAX_INT_STR + 1 && |Numeral(Abs(v), base)| <= MAX_INT_STR
    modifies tmp
    ensures b == MAX_INT_STR - |Numeral(Abs(v), base)|
    ensures tmp[b..MAX_INT_STR] == Numeral(Abs(v), base) && tmp[MAX_INT_STR] == old(tmp[MAX_INT_STR])
  {
    ghost var whole := Numeral(Abs(v), base);
    FirstDigit(Abs(v), base);
    var val;
    b, val := PutDigit(tmp, MAX_INT_STR, v, base);
    while val != 0
      invariant 0 <= b <= MAX_INT_STR && Pending(Abs(val), base, whole, tmp[b..MAX_INT_STR])
      invariant tmp[MAX_INT_STR] == old(tmp[MAX_INT_STR])
      decreases Abs(val)
    {
      NextDigit(Abs(val), base, whole, tmp[b..MAX_INT_STR]);
      DivParts(Abs(val), base);
      b, val := PutDigit(tmp, b, val, base);
    }
  }

  const NUL: char := 0 as char

  /** A C string lies in the array from a place on. */
  ghost predicate HoldsText(src: array<char>, from: nat, text: string)
    reads src
  {
    && from + |text| < src.Length && src[from + |text|] as int == 0
    && forall i {:trigger text[i]} | 0 <= i < |text| :: src[from + i] == text[i] && text[i] as int != 0
  }

  /** `str_copy` stops at the end of the text or after len characters; it writes no terminator. */
  method StrCopy(dest: array<char>, len: nat, src: array<char>, from: nat, ghost text: string) returns (n: nat)
    requires HoldsText(src, from, text) && dest != src && len <= dest.Length
    modifies dest
    ensures n == (if len < |text| then len else |text|) && dest[..n] == text[..n]
    ensures dest[n..] == old(dest[n..])
  {
    n := 0;
    assert |text| > 0 ==> text[0] != NUL;
    while src[from + n] != NUL && n != len
      invariant 0 <= n <= len && n <= |text| && (n < |text| ==> text[n] != NUL && src[from + n] == text[n])
      invariant forall i | 0 <= i < n :: dest[i] == text[i]
      invariant forall i | n <= i < dest.Length :: dest[i] == old(dest[i])
      decreases len - n
    {
      dest[n] := src[from + n];
      n := n + 1;
      assert n < |text| ==> text[n] != NUL;
    }
  }

  lemma {:induction false} DigitsOnly(n: nat, base: nat, i: nat)
    requires 2 <= base <= 36 && i < |Numeral(n, base)|
    ensures IsDigit(Numeral(n, base)[i])
  {
    DivParts(n, base);
    if n >= base && i < |Numeral(n / base, base)| {
      DigitsOnly(n / base, base, i);
    }
  }

  predicate IsDigit(c: char) {
    '0' <= c <= '9' || 'A' <= c <= 'Z'
  }

  lemma NoNul(v: int, base: nat)
    requires 2 <= base <= 36
    ensures forall i | 0 <= i < |Text(v, base)| :: Text(v, base)[i] != NUL
  {
    var d := Numeral(Abs(v), base);
    forall i | 0 <= i < |d| ensures d[i] != NUL { DigitsOnly(Abs(v), base, i); }
  }

  /** The buffer holds the numeral with its sign. */
  method WriteText(tmp: array<char>, v: int, base: nat) returns (b: nat)
    requires 2 <= base <= 36 && |Text(v, base)| <= MAX_INT_STR && tmp.Length == MAX_INT_STR + 1
             && tmp[MAX_INT_STR] == NUL
    modifies tmp
    ensures HoldsText(tmp, b, Text(v, base))
  {
    b := WriteDigits(tmp, v, base);
    if v < 0 && base == 10 {
      ghost var d := tmp[b..MAX_INT_STR];
      b := b - 1;
      tmp[b] := '-';
      assert tmp[b..MAX_INT_STR] == "-" + d;
    }
    HoldsSlice(tmp, b, v, base);
  }

  lemma HoldsSlice(tmp: array<char>, b: nat, v: int, base: nat)
    requires 2 <= base <= 36 && b <= MAX_INT_STR && tmp.Length == MAX_INT_STR + 1 && tmp[MAX_INT_STR] == NUL
    requires tmp[b..MAX_INT_STR] == Text(v, base)
    ensures HoldsText(tmp, b, Text(v, base))
  {
    NoNul(v, base);
    var t := Text(v, base);
    assert |t| == MAX_INT_STR - b;
    forall i | 0 <= i < |t| ensures tmp[b + i] == t[i] { assert tmp[b..MAX_INT_STR][i] == tmp[b + i]; }
  }

  /**
   `int_to_str` writes as much of the canonical numeral as fits the destination. The caller must choose a base in
   which the numeral fits the buffer.
   */
  method IntToStr(dest: array<char>, len: nat, v: int, base: nat) returns (n: nat)
    requires 2 <= base <= 36 && Int64(v) && |Text(v, base)| <= MAX_INT_STR && len <= dest.Length
    modifies dest
    ensures n == (if len < |Text(v, base)| then len else |Text(v, base)|) && dest[..n] == Text(v, base)[..n]
    ensures dest[n..] == old(dest[n..])
  {
    var tmp := new char[MAX_INT_STR + 1](_ => NUL);
    var b := WriteText(tmp, v, base);
    n := StrCopy(dest, len, tmp, b, Text(v, base));
  }

  // ----- What a numeral means -----

  /** The number a digit stands for: '0' to '9', then 'A' to 'Z' for 10 to 35. */
  function DigitValue(c: char): int {
    if c <= '9' then c as int - '0' as int else c as int - 'A' as int + 10
  }

  /** The number that a numeral stands for in a base. */
  function ValueIn(s: string, base: nat): int {
    if s == "" then 0 else base * ValueIn(s[..|s| - 1], base) + DigitValue(s[|s| - 1])
  }

  /** A numeral of a base: digits of that base, and no needless zero in front. */
  ghost predicate Canonical(s: string, base: nat) {
    && s != "" && (|s| > 1 ==> s[0] != '0')
    && forall i | 0 <= i < |s| :: IsDigit(s[i]) && DigitValue(s[i]) < base
  }

  lemma DigitOf(d: int)
    requires 0 <= d < 36
    ensures IsDigit(DigitChar(d)) && DigitValue(DigitChar(d)) == d
  {
  }

  lemma DigitBack(c: char)
    requires IsDigit(c)
    ensures 0 <= DigitValue(c) < 36 && DigitChar(DigitValue(c)) == c && (DigitValue(c) == 0 <==> c == '0')
  {
  }

  /** The numeral of a number stands for it, in every base. */
  lemma {:induction false} NumeralMeans(n: nat, base: nat)
    requires 2 <= base <= 36
    ensures Canonical(Numeral(n, base), base) && ValueIn(Numeral(n, base), base) == n
    ensures n > 0 ==> Numeral(n, base)[0] != '0'
  {
    var s := Numeral(n, base);
    var d := LastDigit(n, base);
    DivParts(n, base);
    DigitOf(d);
    if n >= base {
      NumeralMeans(n / base, base);
      assert s[..|s| - 1] == Numeral(n / base, base) && s[|s| - 1] == DigitChar(d);
    } else {
      assert s[..|s| - 1] == "" && ValueIn("", base) == 0;
    }
  }

  /** A numeral without a zero in front stands for more than zero. */
  lemma {:induction false} ValuePositive(s: string, base: nat)
    requires 2 <= base <= 36 && s != "" && s[0] != '0' && forall i | 0 <= i < |s| :: IsDigit(s[i])
    ensures ValueIn(s, base) > 0
  {
    DigitBack(s[|s| - 1]);
    if |s| > 1 {
      ValuePositive(s[..|s| - 1], base);
      Larger(base, 1, ValueIn(s[..|s| - 1], base));
    } else {
      assert s[..|s| - 1] == "" && ValueIn("", base) == 0;
    }
  }

  /** A digit more. */
  lemma {:induction false} NumeralNext(v: nat, d: nat, base: nat)
    requires 2 <= base <= 36 && 1 <= v && d < base
    ensures 0 <= base * v + d && Numeral(base * v + d, base) == Numeral(v, base) + [DigitChar(d)]
  {
    var n := base * v + d;
    Larger(base, 1, v);
    DivParts(n, base);
    SameQuotient(base, v, n / base, n % base, d);
  }

  lemma {:induction false} OneDigit(c: char, base: nat)
    requires 2 <= base <= 36 && IsDigit(c) && DigitValue(c) < base
    ensures 0 <= ValueIn([c], base) && Numeral(ValueIn([c], base), base) == [c]
  {
    DigitBack(c);
    assert [c][..0] == "" && ValueIn("", base) == 0;
  }

  lemma CanonicalFront(s: string, base: nat)
    requires Canonical(s, base) && |s| > 1
    ensures Canonical(s[..|s| - 1], base) && s[0] != '0' && s == s[..|s| - 1] + [s[|s| - 1]]
  {
  }

  /** There is no other numeral for the number: a numeral is what is printed for the number it stands for. */
  lemma {:induction false} NumeralUnique(s: string, base: nat)
    requires 2 <= base <= 36 && Canonical(s, base)
    ensures 0 <= ValueIn(s, base) && Numeral(ValueIn(s, base), base) == s
  {
    var front, c := s[..|s| - 1], s[|s| - 1];
    if |s| > 1 {
      CanonicalFront(s, base);
      NumeralUnique(front, base);
      ValuePositive(front, base);
      DigitBack(c);
      NumeralNext(ValueIn(front, base), DigitValue(c), base);
    } else {
      OneDigit(c, base);
      assert s == [c];
    }
  }

  /** A negative number has a sign in base 10 only; in the other bases its text is that of its amount. */
  lemma TextMeans(v: int, base: nat)
    requires 2 <= base <= 36
    ensures v < 0 && base == 10 ==> Text(v, 10) == "-" + Text(-v, 10)
    ensures v < 0 && base != 10 ==> Text(v, base) == Text(-v, base)
    ensures v >= 0 ==> Canonical(Text(v, base), base) && ValueIn(Text(v, base), base) == v
    ensures '-' in Text(v, base) <==> v < 0 && base == 10
  {
    NumeralMeans(Abs(v), base);
    assert v < 0 && base == 10 ==> Text(v, base)[0] == '-';
  }

  /** Inputs: 255 and its negative in bases 16 and 10. */
  lemma HexOf255()
    ensures Text(255, 16) == "FF" && Text(-255, 16) == "FF"
  {
    ValueOfTwo("FF", 16);
    NumeralUnique("FF", 16);
  }

  lemma DecimalOf255()
    ensures Text(255, 10) == "255" && Text(-255, 10) == "-255"
  {
    var s := "255";
    assert s[..2] == "25" && s[2] == '5';
    ValueOfTwo("25", 10);
    assert ValueIn(s, 10) == 10 * ValueIn("25", 10) + 5;
    NumeralUnique(s, 10);
  }

  lemma {:induction false} ValueOfTwo(s: string, base: nat)
    requires |s| == 2
    ensures ValueIn(s, base) == base * DigitValue(s[0]) + DigitValue(s[1])
  {
    assert s[..1][..0] == "" && s[..1][0] == s[0];
    assert ValueIn(s[..1], base) == base * ValueIn("", base) + DigitValue(s[0]);
  }

  // ----- The buffer -----

  function Pow(base: nat, k: nat): nat {
    if k == 0 then 1 else base * Pow(base, k - 1)
  }

  lemma {:induction false} PowSum(base: nat, j: nat, k: nat)
    ensures Pow(base, j + k) == Pow(base, j) * Pow(base, k)
  {
    if j > 0 {
      PowSum(base, j - 1, k);
      Associate(base, Pow(base, j - 1), Pow(base, k));
    }
  }

  lemma Associate(a: int, b: int, c: int)
    ensures a * (b * c) == (a * b) * c
  {
  }

  /** Powers of a base by repeated squaring. */
  lemma PowSquares(base: nat, b2: nat, b4: nat, b8: nat, b16: nat)
    requires b2 == base * base && b4 == b2 * b2 && b8 == b4 * b4 && b16 == b8 * b8
    ensures Pow(base, 1) == base && Pow(base, 4) == b4 && Pow(base, 16) == b16 && Pow(base, 32) == b16 * b16
  {
    PowSum(base, 1, 1);
    PowSum(base, 2, 2);
    PowSum(base, 4, 4);
    PowSum(base, 8, 8);
    PowSum(base, 16, 16);
  }

  lemma {:induction false} PowGrows(a: nat, b: nat, k: nat)
    requires a <= b
    ensures Pow(a, k) <= Pow(b, k)
  {
    if k > 0 {
      PowGrows(a, b, k - 1);
      Larger(a, Pow(a, k - 1), Pow(b, k - 1));
      Larger(Pow(b, k - 1), a, b);
    }
  }

  lemma {:induction false} NumeralLength(n: nat, base: nat, k: nat)
    requires 2 <= base <= 36 && 1 <= k && n < Pow(base, k)
    ensures |Numeral(n, base)| <= k
  {
    DivParts(n, base);
    assert Pow(base, 1) == base * Pow(base, 0);
    if n >= base {
      if n / base >= Pow(base, k - 1) { Larger(base, Pow(base, k - 1), n / base); }
      NumeralLength(n / base, base, k - 1);
    }
  }

  lemma {:induction false} NumeralOfPower(base: nat, k: nat)
    requires 2 <= base <= 36
    ensures |Numeral(Pow(base, k), base)| == k + 1
  {
    if k > 0 {
      var n, p := Pow(base, k), Pow(base, k - 1);
      PowPositive(base, k - 1);
      Larger(base, 1, p);
      DivParts(n, base);
      SameQuotient(base, p, n / base, n % base, 0);
      NumeralOfPower(base, k - 1);
    }
  }

  lemma {:induction false} PowPositive(base: nat, k: nat)
    requires 1 <= base
    ensures 1 <= Pow(base, k)
  {
    if k > 0 {
      PowPositive(base, k - 1);
      Larger(base, 1, Pow(base, k - 1));
    }
  }

  lemma SameQuotient(base: nat, p: nat, q: nat, r: nat, d: nat)
    requires base * p + d == base * q + r && r < base && d < base
    ensures p == q && r == d
  {
    if p > q { Larger(base, q + 1, p); }
    if p < q { Larger(base, p + 1, q); }
  }

  /** Every 64-bit value fits the buffer exactly in the bases from four on. */
  lemma BufferSuffices(base: nat)
    requires 2 <= base <= 36
    ensures (forall v | Int64(v) :: |Text(v, base)| <= MAX_INT_STR) <==> 4 <= base
  {
    if base >= 4 {
      forall v | Int64(v) ensures |Text(v, base)| <= MAX_INT_STR { TextFits(v, base); }
    } else {
      PowSquares(2, 4, 16, 0x100, 0x10000);
      PowSquares(3, 9, 81, 6561, 43046721);
      NumeralOfPower(base, 32);
      assert |Text(Pow(base, 32), base)| == 33;
    }
  }

  lemma TextFits(v: int, base: nat)
    requires 4 <= base <= 36 && Int64(v)
    ensures |Text(v, base)| <= MAX_INT_STR
  {
    if base == 10 {
      PowSquares(10, 100, 10000, 100000000, 10000000000000000);
      PowSum(10, 16, 4);
      NumeralLength(Abs(v), 10, 20);
    } else {
      PowSquares(4, 16, 0x100, 0x10000, 0x1_0000_0000);
      PowGrows(4, base, 32);
      NumeralLength(Abs(v), base, 32);
    }
  }

  // ----- Parsing -----

  /** Space and tab. */
  predicate Blank(c: char) {
    c as int == 0x20 || c as int == 0x09
  }

  predicate Decimal(c: char) {
    '0' <= c <= '9'
  }

  function SkipBlanks(s: string): string {
    if s != "" && Blank(s[0]) then SkipBlanks(s[1..]) else s
  }

  /** The number that the leading decimal digits continue. */
  function Value(s: string, acc: int): int {
    if s != "" && Decimal(s[0]) then Value(s[1..], 10 * acc + (s[0] as int - '0' as int)) else acc
  }

  /** What `str_to_int` answers. It sees a sign but does not step over it; the repair does. */
  function Parsed(b: Build, s: string): int {
    var t := SkipBlanks(s);
    var negative := t != "" && t[0] == '-';
    var val := Wrap(Value(if negative && b.Repaired? then t[1..] else t, 0));
    if negative then Wrap(0 - val) else val
  }

  lemma WrapTurns(k: int, x: int)
    ensures Wrap(x + W64 * k) == Wrap(x) && Int64(Wrap(x))
  {
    WholeTurnsOf(k, x + HALF64);
  }

  lemma WholeTurnsOf(q: int, x: int)
    ensures (x + W64 * q) % W64 == x % W64
  {
    var p := x / W64;
    assert x + W64 * q == W64 * (q + p) + x % W64;
  }

  /** Wrapping at each step is wrapping at the end. */
  lemma WrapDigit(acc: int, d: int)
    ensures Wrap(Wrap(10 * Wrap(acc)) + d) == Wrap(10 * acc + d)
  {
    var k := (acc + HALF64) / W64;
    assert Wrap(acc) == acc - W64 * k;
    var j := (10 * Wrap(acc) + HALF64) / W64;
    assert Wrap(10 * Wrap(acc)) == 10 * Wrap(acc) - W64 * j;
    var t := -10 * k - j;
    assert Wrap(10 * Wrap(acc)) + d == 10 * acc + d + W64 * t;
    WrapTurns(t, 10 * acc + d);
  }

  /** `str_to_int`, which ignores its base. */
  method StrToInt(b: Build, str: array<char>, base: int, ghost text: string) returns (v: int)
    requires HoldsText(str, 0, text)
    ensures v == Parsed(b, text)
  {
    var i := 0;
    assert text[0..] == text;
    assert |text| > 0 ==> text[0] != NUL;
    while str[i] == ' ' || str[i] == '\t'
      invariant 0 <= i <= |text| && SkipBlanks(text[i..]) == SkipBlanks(text)
      decreases |text| - i
    {
      assert text[i..][1..] == text[i + 1..];
      i := i + 1;
    }
    ghost var t := text[i..];
    assert t == SkipBlanks(text);
    var negative := str[i] == '-';
    if negative && b.Repaired? {
      i := i + 1;
    }
    v := ParseDigits(str, i, text);
    if negative {
      v := Wrap(0 - v);
    }
  }

  method ParseDigits(str: array<char>, from: nat, ghost text: string) returns (val: int)
    requires HoldsText(str, 0, text) && from <= |text|
    ensures val == Wrap(Value(text[from..], 0))
  {
    val := 0;
    ghost var acc := 0;
    var i := from;
    while '0' <= str[i] <= '9'
      invariant from <= i <= |text| && val == Wrap(acc) && Value(text[i..], acc) == Value(text[from..], 0)
      decreases |text| - i
    {
      assert text[i..][1..] == text[i + 1..];
      var d := str[i] as int - '0' as int;
      WrapDigit(acc, d);
      val := Wrap(10 * val);
      val := Wrap(val + d);
      acc := 10 * acc + d;
      i := i + 1;
    }
  }

  // ----- Round trip -----

  lemma {:induction false} ValueSplit(s: string, t: string, acc: int)
    requires forall i | 0 <= i < |s| :: Decimal(s[i])
    ensures Value(s + t, acc) == Value(t, Value(s, acc))
  {
    if s == "" {
      assert s + t == t;
    } else {
      assert (s + t)[1..] == s[1..] + t;
      ValueSplit(s[1..], t, 10 * acc + (s[0] as int - '0' as int));
    }
  }

  /** A decimal numeral consists of decimal digits, and its value is the number. */
  lemma {:induction false} ValueOfNumeral(n: nat)
    ensures Value(Numeral(n, 10), 0) == n
    ensures forall i | 0 <= i < |Numeral(n, 10)| :: Decimal(Numeral(n, 10)[i])
    ensures |Numeral(n, 10)| > 0
  {
    var d := [DigitChar(LastDigit(n, 10))];
    assert Value(d, n / 10) == 10 * (n / 10) + n % 10 by { assert d[1..] == ""; }
    if n >= 10 {
      ValueOfNumeral(n / 10);
      ValueSplit(Numeral(n / 10, 10), d, 0);
    } else {
      assert n / 10 == 0;
    }
  }

  /**
   Printing and parsing a 64-bit value gives it back: for the smallest one too once the sign is stepped over;
   as it stands, exactly the negative ones are lost and read as zero.
   */
  lemma {:induction false} RoundTrip(b: Build, v: int)
    requires Int64(v)
    ensures Parsed(b, Text(v, 10)) == if b.Repaired? || v >= 0 then v else 0
  {
    var s := Numeral(Abs(v), 10);
    ValueOfNumeral(Abs(v));
    WrapBack(v);
    assert Decimal(s[0]);
    PlainParsed(b, s);
    SignParsed(b, s);
  }

  lemma {:induction false} PlainParsed(b: Build, s: string)
    requires s != "" && Decimal(s[0])
    ensures Parsed(b, s) == Wrap(Value(s, 0))
  {
    assert SkipBlanks(s) == s;
  }

  lemma WrapBack(v: int)
    requires Int64(v)
    ensures Wrap(v) == v && Wrap(0 - Wrap(-v)) == v
  {
  }

  /** A numeral behind a sign. */
  lemma {:induction false} SignParsed(b: Build, s: string)
    ensures Parsed(b, "-" + s) == if b.Repaired? then Wrap(0 - Wrap(Value(s, 0))) else 0
  {
    var t := "-" + s;
    assert t[0] == '-' && t[1..] == s;
    assert SkipBlanks(t) == t && Value(t, 0) == 0;
  }

  /** The round trip through memory: the value is printed, terminated and parsed again. */
  method PrintThenParse(b: Build, v: int) returns (r: int)
    requires Int64(v)
    ensures r == if b.Repaired? || v >= 0 then v else 0
  {
    TextFits(v, 10);
    var str := new char[MAX_INT_STR + 1](_ => NUL);
    var n := IntToStr(str, MAX_INT_STR, v, 10);
    str[n] := NUL;
    HoldsPrinted(str, n, v);
    r := StrToInt(b, str, 10, Text(v, 10));
    RoundTrip(b, v);
  }

  lemma HoldsPrinted(str: array<char>, n: nat, v: int)
    requires n == |Text(v, 10)| < str.Length && str[..n] == Text(v, 10) && str[n] == NUL
    ensures HoldsText(str, 0, Text(v, 10))
  {
    NoNul(v, 10);
    forall i | 0 <= i < n ensures str[i] == Text(v, 10)[i] { assert str[..n][i] == str[i]; }
  }
}
