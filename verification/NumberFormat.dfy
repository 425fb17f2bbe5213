/** StringFormat.c: writing a 32-bit number with all the options of printf, and reading one. */
module NumberFormat {
  import opened Machine

  function Unsigned(n: int): (u: nat)
    ensures u < WORD
  {
    n % WORD
  }

  // ---------- digits ----------

  function DigitChar(d: nat, large: bool): char
    requires d < 36
  {
    if d < 10 then '0' + d as char else if large then 'A' + (d - 10) as char else 'a' + (d - 10) as char
  }

  /** What a digit stands for, 36 if it is none. */
  function DigitValue(c: char): nat {
    if '0' <= c <= '9' then (c - '0') as nat
    else if 'a' <= c <= 'z' then (c - 'a') as nat + 10
    else if 'A' <= c <= 'Z' then (c - 'A') as nat + 10
    else 36
  }

  function Value(s: string, base: nat): nat {
    if s == [] then 0 else Value(s[..|s| - 1], base) * base + DigitValue(s[|s| - 1])
  }

  /** The digits of n as they are to be written. */
  function DigitsOf(n: nat, base: nat, large: bool): string
    requires 2 <= base <= 36
  {
    if n < base then [DigitChar(n, large)]
    else Quotient(n, base); DigitsOf(n / base, base, large) + [DigitChar(n % base, large)]
  }

  lemma Quotient(n: nat, base: nat)
    requires base >= 2
    ensures n / base * base + n % base == n && n % base < base && (n >= base ==> 0 < n / base < n)
    ensures n < base ==> n / base == 0 && n % base == n
  {
    QuotientBounds(n, base, n / base, n % base);
  }

  lemma QuotientBounds(n: nat, base: nat, q: int, r: nat)
    requires base >= 2 && n == q * base + r && r < base
    ensures 0 <= 2 * q <= n && (q == 0 <==> n < base)
  {
    MulStep(q, 0, base);
    MulStep(0, q, base);
    if base > 2 && q >= 0 { MulStep(2, base, q); }
  }

  /** The two strings that the digits, and the X of a prefix, are taken from. */
  lemma DigitChars(d: nat)
    requires d < 36
    ensures DigitChar(d, false) == "0123456789abcdefghijklmnopqrstuvwxyz"[d]
    ensures DigitChar(d, true) == "0123456789ABCDEFGHIJKLMNOPQRSTUVWXYZ"[d]
  {
  }

  lemma DigitValueOf(d: nat, large: bool)
    requires d < 36
    ensures DigitValue(DigitChar(d, large)) == d && (DigitChar(d, large) == '0' <==> d == 0)
  {
  }

  /** A written number is all digits of the base, and has no leading zero unless it is 0. */
  predicate WellWritten(s: string, n: nat, base: nat) {
    && |s| > 0 && (forall i :: 0 <= i < |s| ==> DigitValue(s[i]) < base)
    && (if n == 0 then s == "0" else s[0] != '0')
  }

  /** The digits stand for n. */
  lemma {:induction false} DigitsAreRight(n: nat, base: nat, large: bool)
    requires 2 <= base <= 36
    ensures Value(DigitsOf(n, base, large), base) == n && WellWritten(DigitsOf(n, base, large), n, base)
  {
    var s := DigitsOf(n, base, large);
    Quotient(n, base);
    DigitValueOf(n % base, large);
    if n < base {
      assert s[..|s| - 1] == [];
      DigitValueOf(n, large);
    } else {
      DigitsAreRight(n / base, base, large);
      assert s[..|s| - 1] == DigitsOf(n / base, base, large);
    }
  }

  lemma HalfAtMost(n: nat, base: nat, p: nat)
    requires base >= 2 && n < 2 * p
    ensures n / base < p
  {
    QuotientBounds(n, base, n / base, n % base);
  }

  lemma {:induction false} DigitsFit(n: nat, base: nat, large: bool, k: nat)
    requires 2 <= base <= 36 && n < Pow2(k) && k > 0
    ensures 0 < |DigitsOf(n, base, large)| <= k
  {
    if n >= base {
      HalfAtMost(n, base, Pow2(k - 1));
      DigitsFit(n / base, base, large, k - 1);
    }
  }

  // ---------- the field ----------

  datatype Flags = Flags(zeropad: bool, sign: bool, plus: bool, space: bool, left: bool, special: bool, large: bool)

  /** The sign that is written, if any. */
  function SignOf(t: Flags, number: int): string {
    if !t.sign then ""
    else if number < 0 then "-"
    else if t.plus then "+"
    else if t.space then " "
    else ""
  }

  function PrefixOf(t: Flags, base: int): string {
    if !t.special then ""
    else if base == 8 then "0"
    else if base == 16 then if t.large then "0X" else "0x"
    else ""
  }

  /** The number without its sign, as the unsigned division sees it. */
  function Magnitude(t: Flags, number: Int32): (m: nat)
    ensures m < WORD
    ensures t.sign ==> m == if number < 0 then -(number as int) else number
  {
    if t.sign && number < 0 then -(number as int) else Unsigned(number)
  }

  /** The parts of a field, with size places filled: by blanks before or after the number, or by
      zeros between its prefix and its digits. */
  function Assembled(t: Flags, sign: string, prefix: string, digits: string, size: int): string {
    if t.left then sign + prefix + digits + Times(' ', size)
    else if t.zeropad then sign + prefix + Times('0', size) + digits
    else Times(' ', size) + sign + prefix + digits
  }

  /** The digits with as many zeros before them as the precision asks for. */
  function Padded(digits: string, precision: int): string {
    Times('0', precision - |digits|) + digits
  }

  /** The field that is to be written. */
  function Layout(t: Flags, number: Int32, base: int, width: int, precision: int): string
    requires 2 <= base <= 36
  {
    var s, p := SignOf(t, number), PrefixOf(t, base);
    var d := Padded(DigitsOf(Magnitude(t, number), base, t.large), precision);
    Assembled(t, s, p, d, width - |s| - |p| - |d|)
  }

  lemma MagnitudeIs(t: Flags, number: Int32)
    ensures Magnitude(t, number) == if t.sign && number < 0 then -(number as int) else number % 0x1_0000_0000
  {
  }

  lemma SignIs(t: Flags, number: Int32)
    ensures SignOf(t, number) ==
      if !t.sign then "" else if number < 0 then "-" else if t.plus then "+" else if t.space then " " else ""
  {
  }

  lemma PrefixIs(t: Flags, base: int)
    ensures PrefixOf(t, base) ==
      if !t.special || (base != 8 && base != 16) then "" else if base == 8 then "0" else if t.large then "0X" else "0x"
  {
  }

  /** Where the parts of a field stand. */
  lemma LayoutParts(t: Flags, number: Int32, base: int, width: int, precision: int)
    requires 2 <= base <= 36
    ensures var digits := DigitsOf(Magnitude(t, number), base, t.large);
            var d := Times('0', precision - |digits|) + digits;
            var head := SignOf(t, number) + PrefixOf(t, base);
            Layout(t, number, base, width, precision) ==
              if t.left then head + d + Times(' ', width - |head| - |d|)
              else if t.zeropad then head + Times('0', width - |head| - |d|) + d
              else Times(' ', width - |head| - |d|) + head + d
  {
    var digits := DigitsOf(Magnitude(t, number), base, t.large);
    var d := Times('0', precision - |digits|) + digits;
    var fill := width - |SignOf(t, number)| - |PrefixOf(t, base)| - |d|;
    HeadTogether(t, SignOf(t, number), PrefixOf(t, base), d, fill);
  }

  lemma HeadTogether(t: Flags, sign: string, prefix: string, d: string, fill: int)
    ensures Assembled(t, sign, prefix, d, fill) ==
      if t.left then sign + prefix + d + Times(' ', fill)
      else if t.zeropad then sign + prefix + Times('0', fill) + d
      else Times(' ', fill) + (sign + prefix) + d
  {
    assert Times(' ', fill) + sign + prefix == Times(' ', fill) + (sign + prefix);
  }

  lemma LayoutLength(t: Flags, number: Int32, base: int, width: int, precision: int)
    requires 2 <= base <= 36
    ensures var d := DigitsOf(Magnitude(t, number), base, t.large);
            |Layout(t, number, base, width, precision)| ==
              Max(width, |SignOf(t, number)| + |PrefixOf(t, base)| + Max(|d|, precision))
  {
  }

  /** Writes c as often as size says; the loop leaves size negative. */
  method Fill(string0: string, size0: int, c: char) returns (str: string, size: int)
    ensures str == string0 + Times(c, size0) && size < 0 && (size0 <= 0 ==> size == size0 - 1)
  {
    str, size := string0, size0;
    ghost var n := 0;
    while size > 0
      invariant n + Max(size, 0) == Max(size0, 0) && (size0 <= 0 ==> size == size0)
      invariant str == string0 + Times(c, n)
    {
      str := str + [c];
      size := size - 1;
      n := n + 1;
      assert Times(c, n) == Times(c, n - 1) + [c];
    }
    size := size - 1;
  }

  /** t holds the last characters of s, the last one first. */
  ghost predicate LastFirst(t: seq<char>, s: string) {
    |t| <= |s| && forall k :: 0 <= k < |t| ==> t[k] == s[|s| - 1 - k]
  }

  /** The digits still to be found when the quotient is n. */
  ghost function Ahead(n: nat, base: nat, large: bool): string
    requires 2 <= base <= 36
  {
    if n == 0 then "" else DigitsOf(n, base, large)
  }

  lemma AheadStep(n: nat, base: nat, large: bool, q: nat, d: nat)
    requires 2 <= base <= 36 && n > 0 && q == n / base && d == n % base
    ensures q < n && d < base && Ahead(n, base, large) == Ahead(q, base, large) + [DigitChar(d, large)]
  {
    Quotient(n, base);
    if n < base { assert "" + [DigitChar(n, large)] == [DigitChar(n, large)]; }
  }

  /** DIVIDE: the last of them is the remainder, and those before it are the digits of the quotient. */
  method NextDigit(n: nat, base: nat, large: bool) returns (c: char, q: nat)
    requires 2 <= base <= 36 && n > 0
    ensures q < n && Ahead(n, base, large) == Ahead(q, base, large) + [c]
  {
    AheadStep(n, base, large, n / base, n % base);
    c, q := DigitChar(n % base, large), n / base;
  }

  lemma AllButLast(s: string, before: string, i: nat, c: char)
    requires i < |s| && s[..|s| - i] == before + [c]
    ensures s[..|s| - i - 1] == before && s[|s| - 1 - i] == c
  {
    assert s[..|s| - i][|s| - i - 1] == c;
    assert s[..|s| - i - 1] == s[..|s| - i][..|s| - i - 1];
  }

  lemma DigitsOfZero(base: nat, large: bool)
    requires 2 <= base <= 36
    ensures DigitsOf(0, base, large) == "0"
  {
  }

  /** The digits of the number, the last one first, in temp[0..i]; 32 places are enough. */
  method Digits(number: nat, base: nat, large: bool) returns (temp: array<char>, i: nat)
    requires 2 <= base <= 36 && number < WORD
    ensures fresh(temp) && temp.Length == 66 && i == |DigitsOf(number, base, large)| <= 32
    ensures LastFirst(temp[..i], DigitsOf(number, base, large))
  {
    temp := new char[66];
    i := 0;
    if number == 0 {
      temp[i] := '0';
      i := i + 1;
      DigitsOfZero(base, large);
      return;
    }
    ghost var whole := DigitsOf(number, base, large);
    Pow2Value();
    DigitsFit(number, base, large, 32);
    i := Divide(number, base, large, temp, whole);
  }

  /** The division loop: one digit for every quotient until that is 0. */
  method Divide(number: nat, base: nat, large: bool, temp: array<char>, ghost whole: string) returns (i: nat)
    requires 2 <= base <= 36 && |whole| <= temp.Length && whole == Ahead(number, base, large)
    modifies temp
    ensures i == |whole| && LastFirst(temp[..i], whole)
  {
    i := 0;
    var n: nat := number;
    while n != 0
      invariant i <= |whole| && whole[..|whole| - i] == Ahead(n, base, large)
      invariant forall k :: 0 <= k < i ==> temp[k] == whole[|whole| - 1 - k]
    {
      temp[i], n := NextDigit(n, base, large);
      AllButLast(whole, Ahead(n, base, large), i, temp[i]);
      i := i + 1;
    }
  }

  /** The sign, which takes one place of the field. */
  method Sign(number: Int32, t: Flags, width: int) returns (sign: string, n: nat, size: int)
    ensures sign == SignOf(t, number) && n == Magnitude(t, number) && size == width - |sign|
  {
    sign, size, n := "", width, Unsigned(number);
    if t.sign {
      if number < 0 {
        sign := "-";
        n := Unsigned(-(number as int));
        size := size - 1;
      } else if t.plus {
        sign := "+";
        size := size - 1;
      } else if t.space {
        sign := " ";
        size := size - 1;
      }
    }
  }

  method Prefix(t: Flags, base: int) returns (prefix: string)
    ensures prefix == PrefixOf(t, base)
  {
    prefix := "";
    if t.special {
      if base == 8 {
        prefix := "0";
      } else if base == 16 {
        prefix := "0" + [DigitChar(33, t.large)];
      }
    }
  }

  /** The prefix takes its places, too. */
  method LessPrefix(t: Flags, base: int, width: int) returns (size: int)
    ensures size == width - |PrefixOf(t, base)|
  {
    size := width;
    if t.special {
      if base == 16 {
        size := size - 2;
      } else if base == 8 {
        size := size - 1;
      }
    }
  }

  /** KLintToAscii; no field (NULL) is written for a base that has no digits. */
  method IntToAscii(number: Int32, base: int, width: int, precision: int, t: Flags) returns (ok: bool, str: string)
    ensures ok <==> 2 <= base <= 36
    ensures ok ==> str == Layout(t, number, base, width, precision)
  {
    if base < 2 || base > 36 { return false, ""; }
    var sign, n, size := Sign(number, t, width);
    size := LessPrefix(t, base, size);
    var temp, i := Digits(n, base, t.large);
    var prec := if i > precision then i else precision;
    str := PutField(t, sign, base, size - prec, temp, i, prec, DigitsOf(n, base, t.large));
    return true, str;
  }

  /** The blanks or zeros go to one of three places. */
  lemma OnePlaceFilled(t: Flags, sign: string, prefix: string, digits: string, size: int, a: string, b: string, c: string)
    requires a == Times(' ', if t.left || t.zeropad then 0 else size)
    requires b == Times('0', if t.left || !t.zeropad then 0 else size)
    requires c == Times(' ', if t.left then size else 0)
    ensures ((a + sign) + prefix + b) + digits + c == Assembled(t, sign, prefix, digits, size)
  {
  }

  /** The sign, the prefix and the digits, with size blanks before or after them or zeros between them. */
  method PutField(t: Flags, sign: string, base: int, size0: int, temp: array<char>, i: nat, prec: int,
                    ghost digits: string) returns (str: string)
    requires i <= temp.Length && i == |digits| <= prec && LastFirst(temp[..i], digits)
    ensures str == Assembled(t, sign, PrefixOf(t, base), Padded(digits, prec), size0)
  {
    var size, zeropad := size0, t.zeropad && !t.left;
    var pad := if zeropad then '0' else ' ';
    str := "";
    if !zeropad && !t.left {
      str, size := Fill(str, size, ' ');
    }
    ghost var a := str;
    str := str + sign;
    var prefix := Prefix(t, base);
    str := str + prefix;
    ghost var b := Times(pad, if t.left then 0 else size);
    if !t.left {
      str, size := Fill(str, size, pad);
    }
    str := PutDigits(str, temp, i, prec, digits);
    OnePlaceFilled(t, sign, prefix, Padded(digits, prec), size0, a, b, Times(' ', size));
    str, size := Fill(str, size, ' ');
  }

  /** The zeros that the precision asks for, and the digits in the right order. */
  method PutDigits(string0: string, temp: array<char>, count: nat, precision: int, ghost digits: string)
    returns (str: string)
    requires count <= temp.Length && count == |digits| <= precision && LastFirst(temp[..count], digits)
    ensures str == string0 + Padded(digits, precision)
  {
    str := string0;
    var left, i := precision, count;
    while count < left
      invariant count <= left <= precision
      invariant str == string0 + Times('0', precision - left)
    {
      str := str + ['0'];
      left := left - 1;
      assert Times('0', precision - left) == Times('0', precision - left - 1) + ['0'];
    }
    while i > 0
      invariant 0 <= i <= count
      invariant str == string0 + (Times('0', precision - count) + digits[..count - i])
    {
      i := i - 1;
      str := str + [temp[i]];
      assert temp[i] == temp[..count][i];
      assert digits[..count - i] == digits[..count - i - 1] + [temp[i]];
    }
  }

  // ---------- reading ----------

  predicate IsDigit(c: char) { '0' <= c <= '9' }

  /** The digits that s begins with. */
  function Leading(s: string): (d: string)
    ensures |d| <= |s| && d == s[..|d|] && (forall i :: 0 <= i < |d| ==> IsDigit(d[i]))
    ensures |d| < |s| ==> !IsDigit(s[|d|])
  {
    if s == "" || !IsDigit(s[0]) then "" else [s[0]] + Leading(s[1..])
  }

  /** KLnextAsciiToInt, from place start of a string on, in 32-bit arithmetic. */
  method NextAsciiToInt(s: string, start: nat) returns (r: Int32, place: nat)
    requires start < |s| && s[|s| - 1] == 0 as char
    ensures place == start + |Leading(s[start..])| && r == Wrap(Value(Leading(s[start..]), 10))
  {
    r, place := 0, start;
    ghost var d := Leading(s[start..]);
    LeadingAt(s, start, start);
    while IsDigit(s[place])
      invariant start <= place <= start + |d| && place < |s|
      invariant r == Wrap(Value(d[..place - start], 10))
      invariant IsDigit(s[place]) <==> place < start + |d|
      decreases |s| - place
    {
      LeadingAt(s, start, place);
      LeadingAt(s, start, place + 1);
      r := TakeDigit(r, s[place], d, place - start);
      place := place + 1;
    }
    assert d[..|d|] == d;
  }

  /** In a string that ends with a NUL, the leading digits are those before the first other character. */
  lemma LeadingAt(s: string, start: nat, place: nat)
    requires s != "" && s[|s| - 1] == 0 as char && start <= place && start < |s|
    ensures var d := Leading(s[start..]);
            && start + |d| < |s|
            && (place < start + |d| ==> s[place] == d[place - start] && IsDigit(s[place]))
            && (place == start + |d| ==> !IsDigit(s[place]))
  {
    var rest := s[start..];
    assert rest[|rest| - 1] == 0 as char;
    if place < |s| { assert rest[place - start] == s[place]; }
  }

  method TakeDigit(r0: Int32, c: char, ghost d: string, ghost k: nat) returns (r: Int32)
    requires k < |d| && c == d[k] && IsDigit(c) && r0 == Wrap(Value(d[..k], 10))
    ensures r == Wrap(Value(d[..k + 1], 10))
  {
    ReadStep(d, k);
    r := Wrap(Wrap(r0 * 10 + c as int) - '0' as int);
  }

  lemma ReadStep(d: string, k: nat)
    requires k < |d| && IsDigit(d[k])
    ensures Wrap(Wrap(Wrap(Value(d[..k], 10)) * 10 + d[k] as int) - '0' as int) == Wrap(Value(d[..k + 1], 10))
  {
    assert d[..k + 1][..k] == d[..k];
    WrapStep(Value(d[..k], 10), DigitValue(d[k]));
  }

  /** Wrapping early or late makes no difference. */
  lemma WrapStep(v: int, digit: int)
    ensures Wrap(Wrap(Wrap(v) * 10 + ('0' as int + digit)) - '0' as int) == Wrap(v * 10 + digit)
  {
    var a := WrapIs(v);
    var b := WrapIs(Wrap(v) * 10 + ('0' as int + digit));
    WrapAgain(v * 10 + digit, 10 * a + b);
  }

  lemma WrapAgain(x: int, k: int)
    ensures Wrap(x + k * WORD) == Wrap(x)
  {
    assert (x + 0x8000_0000 + k * WORD) % WORD == (x + 0x8000_0000) % WORD;
  }

  /** Wrap leaves the number unchanged up to multiples of 2^32. */
  lemma WrapIs(x: int) returns (k: int)
    ensures Wrap(x) == x + k * WORD
  {
    k := -((x + 0x8000_0000) / WORD);
  }

  /** KLasciiToInt. */
  method AsciiToInt(s: string) returns (r: Int32)
    requires |s| > 0 && s[|s| - 1] == 0 as char
    ensures r == Wrap(Value(Leading(s), 10))
  {
    var place;
    assert s[0..] == s;
    r, place := NextAsciiToInt(s, 0);
  }

  const PLAIN := Flags(false, false, false, false, false, false, false)

  lemma {:induction false} LeadingAll(d: string, rest: string)
    requires (forall i :: 0 <= i < |d| ==> IsDigit(d[i])) && (rest != "" ==> !IsDigit(rest[0]))
    ensures Leading(d + rest) == d
  {
    if d == "" {
      assert d + rest == rest;
    } else {
      assert (d + rest)[1..] == d[1..] + rest;
      LeadingAll(d[1..], rest);
    }
  }

  lemma {:induction false} ZerosCountNothing(n: nat, d: string)
    ensures Value(Times('0', n) + d, 10) == Value(d, 10)
    decreases |d|, n
  {
    var s := Times('0', n) + d;
    if d != "" {
      ZerosCountNothing(n, d[..|d| - 1]);
      assert s[..|s| - 1] == Times('0', n) + d[..|d| - 1];
    } else if n > 0 {
      ZerosCountNothing(n - 1, d);
      assert s[..|s| - 1] == Times('0', n - 1) + d;
    }
  }

  /** KLasciiToInt reads the string s, terminated by a NUL, as the number n. */
  predicate ReadAs(s: string, n: int) {
    Wrap(Value(Leading(s + [0 as char]), 10)) == n
  }

  lemma BlankReadsZero(s: string)
    requires s != "" && !IsDigit(s[0])
    ensures ReadAs(s, 0)
  {
    assert (s + [0 as char])[0] == s[0];
  }

  /** Reading what was written: with no flags, a number from 0 to 2^31 - 1 is read back from its
      decimal form, whatever zeros the precision puts before it, unless the width puts blanks there;
      then 0 is read. */
  lemma ReadsBack(number: Int32, width: int, precision: int)
    requires number >= 0
    ensures ReadAs(Layout(PLAIN, number, 10, width, precision),
                   if width <= Max(|DigitsOf(number, 10, false)|, precision) then number else 0)
  {
    var d := DigitsOf(number, 10, false);
    var s := Padded(d, precision);
    PlainLayout(number, width, precision);
    PaddedReads(number, precision);
    if width > |s| {
      BlankReadsZero(Times(' ', width - |s|) + s);
    }
  }

  lemma PlainLayout(number: Int32, width: int, precision: int)
    requires number >= 0
    ensures var s := Padded(DigitsOf(number, 10, false), precision);
            Layout(PLAIN, number, 10, width, precision) == if width <= |s| then s else Times(' ', width - |s|) + s
  {
    var s := Padded(DigitsOf(number, 10, false), precision);
    assert Magnitude(PLAIN, number) == number;
    var fill := Times(' ', width - |s|);
    assert fill + "" + "" + s == fill + s;
    if width <= |s| { assert fill + s == s; }
  }

  lemma PaddedReads(number: nat, precision: int)
    requires number < 0x8000_0000
    ensures var s := Padded(DigitsOf(number, 10, false), precision);
            |s| == Max(|DigitsOf(number, 10, false)|, precision) && ReadAs(s, number)
  {
    var d := DigitsOf(number, 10, false);
    DigitsAreRight(number, 10, false);
    forall i | 0 <= i < |d|
      ensures IsDigit(d[i])
    {
      SmallDigit(d, i);
    }
    DigitsRead(d, Max(precision - |d|, 0), number);
    assert Padded(d, precision) == Times('0', Max(precision - |d|, 0)) + d;
  }

  lemma DigitsRead(d: string, zeros: nat, number: nat)
    requires number < 0x8000_0000 && Value(d, 10) == number && forall i :: 0 <= i < |d| ==> IsDigit(d[i])
    ensures ReadAs(Times('0', zeros) + d, number)
  {
    var s := Times('0', zeros) + d;
    ZerosCountNothing(zeros, d);
    assert forall i :: 0 <= i < |s| ==> IsDigit(s[i]);
    AllDigitsRead(s, number);
  }

  lemma AllDigitsRead(s: string, number: nat)
    requires number < 0x8000_0000 && Value(s, 10) == number && forall i :: 0 <= i < |s| ==> IsDigit(s[i])
    ensures ReadAs(s, number)
  {
    LeadingAll(s, [0 as char]);
    WrapSame(number);
  }

  lemma WrapSame(n: Int32)
    ensures Wrap(n) == n
  {
  }

  lemma SmallDigit(d: string, k: nat)
    requires k < |d| && DigitValue(d[k]) < 10
    ensures IsDigit(d[k])
  {
  }
}
