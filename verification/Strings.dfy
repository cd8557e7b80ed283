/**
 The number formatting and comparison of src/whitelib/string/string.c, with the
 32-bit wrap-around of signed arithmetic written out. A string is the characters
 before its terminating NUL.
 */
module Strings {
  import opened CTypes

  // ----- Decimal text

  /** '0' plus a digit; the C remainder of a negative number is a negative digit. */
  function DigitChar(d: int): char
    requires -9 <= d <= 9
  {
    (d + '0' as int) as char
  }

  /** What toInt adds up, before any wrap-around: each character counts as its distance from '0'. */
  function Value(s: string): int {
    if s == "" then 0 else 10 * Value(s[..|s| - 1]) + (s[|s| - 1] as int - '0' as int)
  }

  function Pow10(d: nat): (p: int)
    ensures p > 0
  {
    if d == 0 then 1 else 10 * Pow10(d - 1)
  }

  /** The digits that the division loop of toString produces, most significant first; none for 0. */
  function Digits(n: int): (s: string)
    ensures Value(s) == n
    decreases if n < 0 then -n else n
  {
    if n == 0 then "" else
      var s := Digits(CDiv(n, 10)) + [DigitChar(CMod(n, 10))];
      assert s[..|s| - 1] == Digits(CDiv(n, 10));
      s
  }

  /** number *= -1, which leaves the least number as it is. */
  function Negate(n: int): int32 {
    ToInt32(-n)
  }

  /** The text toString writes. */
  function Text(n: int32): string {
    if n == 0 then "0" else if n < 0 then "-" + Digits(Negate(n)) else Digits(n)
  }

  lemma DigitsStep(n: int32)
    ensures n == 0 ==> Digits(n) == ""
    ensures n != 0 ==> -9 <= CMod(n, 10) <= 9 && -0x8000_0000 <= CDiv(n, 10) < 0x8000_0000
    ensures n != 0 ==> Digits(n) == Digits(CDiv(n, 10)) + [DigitChar(CMod(n, 10))]
  {
  }

  lemma {:induction false} DigitsLength(n: int, d: nat)
    requires -Pow10(d) < n < Pow10(d)
    ensures |Digits(n)| <= d
    ensures n > 0 ==> Pow10(|Digits(n)| - 1) <= n < Pow10(|Digits(n)|)
    decreases d
  {
    if n != 0 {
      DigitsLength(CDiv(n, 10), d - 1);
      if CDiv(n, 10) == 0 {
        assert |Digits(n)| == 1;
      }
    }
  }

  /** A positive number's text is made of decimal digits. */
  lemma {:induction false} DigitsAreDecimal(n: nat)
    ensures forall c | c in Digits(n) :: '0' <= c <= '9'
    decreases n
  {
    if n > 0 {
      DigitsAreDecimal(n / 10);
    }
  }

  /** A negative number above the least one is a minus sign and the text of its opposite. */
  lemma NegativeText(n: int32)
    requires -0x8000_0000 < n < 0
    ensures Text(n) == "-" + Text(Negate(n)) && Negate(n) + n == 0
  {
    hide Digits;
    var m: int := n;
    assert 0 < -m < 0x8000_0000 && Negate(m) == -m;
  }

  /** Decimal digits without leading zeros. */
  predicate IsNumeral(s: string) {
    && (forall i | 0 <= i < |s| :: 48 <= s[i] as int <= 57)
    && (s != "" ==> s[0] as int != 48)
  }

  lemma {:induction false} NumeralValue(s: string)
    requires IsNumeral(s) && s != ""
    ensures Value(s) > 0
    decreases |s|
  {
    var init := s[..|s| - 1];
    if init == "" {
      assert Value(init) == 0;
    } else {
      NumeralValue(init);
    }
  }

  lemma {:induction false} NumeralIsUnique(s: string, t: string)
    requires IsNumeral(s) && IsNumeral(t) && Value(s) == Value(t)
    ensures s == t
    decreases |s|
  {
    if s == "" || t == "" {
      if s != "" { NumeralValue(s); }
      if t != "" { NumeralValue(t); }
    } else {
      var n, m := |s| - 1, |t| - 1;
      assert Value(s[..n]) == Value(t[..m]) && s[n] == t[m];
      NumeralIsUnique(s[..n], t[..m]);
      assert s == s[..n] + [s[n]] && t == t[..m] + [t[m]];
    }
  }

  lemma {:induction false} DigitsAreNumeral(n: nat)
    ensures IsNumeral(Digits(n)) && (n > 0 ==> Digits(n) != "")
    decreases n
  {
    if n > 0 {
      DigitsAreNumeral(n / 10);
    }
  }

  /** The text of a number that is not negative is "0", or the one numeral with its value. */
  lemma TextIsNumeralIff(n: int32, s: string)
    requires n >= 0
    ensures s == Text(n) <==> if n == 0 then s == "0" else IsNumeral(s) && Value(s) == n
  {
    DigitsAreNumeral(n);
    if n > 0 && IsNumeral(s) && Value(s) == n {
      NumeralIsUnique(s, Digits(n));
    }
  }

  lemma {:induction false} ValueOfSigned(s: string)
    ensures Value("-" + s) == -3 * Pow10(|s|) + Value(s)
  {
    if s == "" {
      assert ("-" + s)[..0] == "";
    } else {
      var t := "-" + s;
      assert t[..|t| - 1] == "-" + s[..|s| - 1];
      ValueOfSigned(s[..|s| - 1]);
    }
  }

  lemma TenDigitsAreEnough(n: int)
    requires -0x8000_0000 <= n <= 0x8000_0000
    ensures |Digits(n)| <= 10
    ensures n > 0 ==> 1 <= |Digits(n)| <= 10 && Pow10(|Digits(n)| - 1) <= n < Pow10(|Digits(n)|)
  {
    PowersOfTen();
    DigitsLength(n, 10);
  }

  lemma PowersOfTen()
    ensures Pow10(0) == 1 && Pow10(1) == 10 && Pow10(2) == 100 && Pow10(3) == 1000
    ensures Pow10(4) == 10000 && Pow10(5) == 100000 && Pow10(6) == 1000000 && Pow10(7) == 10000000
    ensures Pow10(8) == 100000000 && Pow10(9) == 1000000000 && Pow10(10) == 10000000000
  {
    assert Pow10(1) == 10 * Pow10(0);
    assert Pow10(2) == 10 * Pow10(1);
    assert Pow10(3) == 10 * Pow10(2);
    assert Pow10(4) == 10 * Pow10(3);
    assert Pow10(5) == 10 * Pow10(4);
    assert Pow10(6) == 10 * Pow10(5);
    assert Pow10(7) == 10 * Pow10(6);
    assert Pow10(8) == 10 * Pow10(7);
    assert Pow10(9) == 10 * Pow10(8);
  }

  /** The minus sign is read as the digit -3, and what comes out is the number again for one value only. */
  lemma NegativeTextReads(n: int32)
    requires n < 0
    ensures ToInt32(Value(Text(n))) == n <==> n == -2115098112
  {
    hide Value;
    hide Digits;
    hide Pow10;
    var m := Negate(n);
    var d := |Digits(m)|;
    ValueOfSigned(Digits(m));
    TenDigitsAreEnough(m);
    PowersOfTen();
    assert Value(Text(n)) == -3 * Pow10(d) + m;
    if n > -0x8000_0000 {
      assert m == -n;
      WrappedSum(n, d, Pow10(d));
    } else {
      LeastNumberDigits();
    }
  }

  lemma WrappedSum(n: int, d: nat, p: nat)
    requires -0x8000_0000 < n < 0 && 1 <= d <= 10 && p == Pow10(d) && -n < p && Pow10(d - 1) <= -n
    ensures ToInt32(-3 * p - n) == n <==> n == -2115098112
  {
    PowersOfTen();
    if d == 10 {
      WrapShift(-3 * p - n, -7);
    } else if d == 9 && -3 * p - n < -0x8000_0000 {
      WrapShift(-3 * p - n, -1);
    }
  }

  /** One more digit d behind the negative number -m: the character as far before '0'. */
  lemma NegativeDigits(m: int, d: int, text: string)
    requires 0 <= m && 0 <= d <= 9 && 0 < 10 * m + d <= 0x8000_0000 && Digits(-m) == text
    ensures Digits(-(10 * m + d)) == text + [(48 - d) as char]
  {
    hide Digits;
    var n := -(10 * m + d);
    assert CDiv(n, 10) == -m && CMod(n, 10) == -d;
    DigitsStep(n);
  }

  lemma LeastNumberDigits()
    ensures Digits(-0x8000_0000) == "./,),(-*,("
    ensures ToInt32(-3 * Pow10(10) - 0x8000_0000) != -0x8000_0000
  {
    hide Digits;
    PowersOfTen();
    DigitsStep(0);
    NegativeDigits(0, 2, "");
    NegativeDigits(2, 1, ".");
    NegativeDigits(21, 4, "./");
    NegativeDigits(214, 7, "./,");
    NegativeDigits(2147, 4, "./,)");
    NegativeDigits(21474, 8, "./,),");
    NegativeDigits(214748, 3, "./,),(");
    NegativeDigits(2147483, 6, "./,),(-");
    NegativeDigits(21474836, 4, "./,),(-*");
    NegativeDigits(214748364, 8, "./,),(-*,");
    WrapShift(-3 * Pow10(10) - 0x8000_0000, -8);
  }

  /** The text of the least number is spelled with the characters before '0'. */
  lemma LeastNumberText()
    ensures Text(-0x8000_0000) == "-./,),(-*,("
  {
    hide Digits;
    LeastNumberDigits();
  }

  /** Reading back the text of a number gives the number exactly for the non-negative ones, and one negative. */
  lemma ReadBackIff(n: int32)
    ensures ToInt32(Value(Text(n))) == n <==> n >= 0 || n == -2115098112
  {
    if n < 0 {
      NegativeTextReads(n);
    } else if n == 0 {
      assert "0"[..0] == "";
      assert Value("0") == 0;
    }
  }

  /** toInt. */
  method ToInt(str: string) returns (val: int32)
    ensures val == ToInt32(Value(str))
  {
    val := 0;
    for i := 0 to |str|
      invariant val == ToInt32(Value(str[..i]))
    {
      assert str[..i + 1][..i] == str[..i];
      WrapThrough(Value(str[..i]), 10, 0);
      var tens := ToInt32(val * 10);
      WrapThrough(10 * Value(str[..i]), 1, str[i] as int - '0' as int);
      val := ToInt32(tens + (str[i] as int - '0' as int));
    }
    assert str[..|str|] == str;
  }

  /** The division loop of toString: the digits, last one first. */
  method CollectDigits(number: int32, tmp: array<char>) returns (digits: nat)
    requires tmp.Length >= 10
    modifies tmp
    ensures digits == |Digits(number)| <= 10
    ensures forall k | 0 <= k < digits :: tmp[k] == Digits(number)[digits - 1 - k]
  {
    hide Digits;
    hide CDiv;
    hide CMod;
    var n: int32 := number;
    ghost var text := Digits(n);
    TenDigitsAreEnough(n);
    digits := 0;
    DigitsStep(n);
    while n != 0
      invariant 0 <= digits <= |text| && Digits(n) == text[..|text| - digits]
      invariant n == 0 ==> Digits(n) == ""
      invariant forall k | 0 <= k < digits :: tmp[k] == text[|text| - 1 - k]
      decreases |text| - digits
    {
      DigitsStep(n);
      tmp[digits] := DigitChar(CMod(n, 10));
      n := CDiv(n, 10);
      digits := digits + 1;
      DigitsStep(n);
    }
  }

  /** The copy loop of toString: the collected digits in reading order from `left` on, and the terminator. */
  method PlaceDigits(tmp: array<char>, count: nat, buf: array<char>, start: nat)
    requires count <= tmp.Length && start + count < buf.Length && tmp != buf
    modifies buf
    ensures forall k | start <= k < start + count :: buf[k] == tmp[start + count - 1 - k]
    ensures buf[start + count] == '\0'
    ensures forall k | 0 <= k < buf.Length && !(start <= k <= start + count) :: buf[k] == old(buf[k])
  {
    var left, digits, end := start, count, start + count;
    while left < end
      invariant start <= left <= end && digits == end - left
      invariant forall k | start <= k < left :: buf[k] == tmp[end - 1 - k]
      invariant forall k | 0 <= k < buf.Length && !(start <= k < left) :: buf[k] == old(buf[k])
    {
      digits := digits - 1;
      buf[left] := tmp[digits];
      left := left + 1;
    }
    buf[end] := '\0';
  }

  /** toString: the digits go to a temporary buffer in reverse, then behind the sign to their places. */
  method ToString(number: int32, buf: array<char>)
    requires buf.Length > |Text(number)|
    modifies buf
    ensures var n := |Text(number)|;
      buf[..n] == Text(number) && buf[n] == '\0' && buf[n + 1..] == old(buf[n + 1..])
  {
    hide Digits;
    hide Negate;
    if number == 0 {
      buf[0] := '0';
      buf[1] := '\0';
      return;
    }
    var n: int32, left: nat := number, 0;
    if n < 0 {
      n := Negate(n);
      buf[0] := '-';
      left := 1;
    }
    var tmp := new char[120];
    var digits := CollectDigits(n, tmp);
    PlaceDigits(tmp, digits, buf, left);
  }

  // ----- Hexadecimal text

  function HexChar(d: nat): char
    requires d < 16
  {
    ((if d < 10 then '0' as int else 0) + (if d >= 10 then 'A' as int - 10 else 0) + d) as char
  }

  /** The value of a hexadecimal digit. */
  function HexValue(c: char): int {
    if '0' <= c <= '9' then c as int - '0' as int
    else if 'A' <= c <= 'F' then c as int - 'A' as int + 10
    else -1
  }

  function HexRead(s: string): int {
    if s == "" then 0 else 16 * HexRead(s[..|s| - 1]) + HexValue(s[|s| - 1])
  }

  /** The last k hexadecimal digits of n. */
  function HexText(n: nat, k: nat): (s: string)
    ensures |s| == k
  {
    if k == 0 then "" else HexText(n / 16, k - 1) + [HexChar(n % 16)]
  }

  lemma {:induction false} HexReadBack(n: nat, k: nat)
    requires n < Pow16(k)
    ensures HexRead(HexText(n, k)) == n
  {
    if k > 0 {
      var s := HexText(n, k);
      assert s[..k - 1] == HexText(n / 16, k - 1);
      HexReadBack(n / 16, k - 1);
    }
  }

  function Pow16(k: nat): (p: nat)
    ensures p > 0
  {
    if k == 0 then 1 else 16 * Pow16(k - 1)
  }

  /** Reading the eight digits of a 32-bit number's text gives back the number. */
  lemma HexRoundTrip(n: uint32)
    ensures HexRead(HexText(n, 8)) == n
  {
    assert Pow16(4) == 65536;
    assert Pow16(6) == 256 * Pow16(4);
    assert Pow16(8) == 256 * Pow16(6);
    HexReadBack(n, 8);
  }

  /** Each character is the digit of its place, the highest place first. */
  lemma {:induction false} HexTextAt(n: nat, k: nat, i: nat)
    requires i < k
    ensures HexText(n, k)[i] == "0123456789ABCDEF"[n / Pow16(k - 1 - i) % 16]
    decreases k
  {
    hide HexChar;
    if i < k - 1 {
      HexTextAt(n / 16, k - 1, i);
      DigitOfHigher(n, Pow16(k - 2 - i));
    } else {
      HexCharIs(n % 16);
    }
  }

  lemma DigitOfHigher(n: nat, p: nat)
    requires p > 0
    ensures n / (16 * p) == n / 16 / p
  {
    var q, r := n / 16 / p, n / 16 % p;
    assert n / 16 == p * q + r;
    assert n == 16 * p * q + (16 * r + n % 16);
    DivUnique(n, 16 * p, q, 16 * r + n % 16);
  }

  lemma HexCharIs(d: nat)
    requires d < 16
    ensures HexChar(d) == "0123456789ABCDEF"[d]
  {
  }

  /** toStringHex: "0x", eight digits filled in from the last, and the terminator. */
  method ToStringHex(number: uint32, buf: array<char>)
    requires buf.Length >= 11
    modifies buf
    ensures buf[..2] == "0x" && buf[2..10] == HexText(number, 8) && buf[10] == '\0'
    ensures buf[11..] == old(buf[11..])
  {
    buf[0] := '0';
    buf[1] := 'x';
    buf[10] := '\0';
    var n: nat := number;
    ghost var text := HexText(number, 8);
    var i := 9;
    while i > 1
      invariant 1 <= i <= 9
      invariant HexText(n, i - 1) == text[..i - 1]
      invariant forall k | i < k < 10 :: buf[k] == text[k - 2]
      invariant buf[0] == '0' && buf[1] == 'x' && buf[10] == '\0'
      invariant forall k | 11 <= k < buf.Length :: buf[k] == old(buf[k])
    {
      assert text[i - 2] == HexText(n, i - 1)[i - 2] == HexChar(n % 16);
      assert HexText(n / 16, i - 2) == HexText(n, i - 1)[..i - 2];
      buf[i] := HexChar(n % 16);
      n := n / 16;
      i := i - 1;
    }
  }

  // ----- Comparison

  function ToLower(c: char): char {
    if 'A' <= c <= 'Z' then (c as int - 'A' as int + 'a' as int) as char else c
  }

  /** The character at index i, the terminator included. */
  function CharAt(s: string, i: nat): char
    requires i <= |s|
  {
    if i < |s| then s[i] else '\0'
  }

  /** Equal but for the case of letters. */
  predicate SameIgnoringCase(a: string, b: string) {
    |a| == |b| && forall i | 0 <= i < |a| :: ToLower(a[i]) == ToLower(b[i])
  }

  /** The same character, or the same letter in two cases; written out in character codes. */
  predicate SameLetter(x: char, y: char) {
    || x == y
    || (65 <= x as int <= 90 && y as int == x as int + 32)
    || (65 <= y as int <= 90 && x as int == y as int + 32)
  }

  predicate SameText(a: string, b: string) {
    |a| == |b| && forall i | 0 <= i < |a| :: SameLetter(a[i], b[i])
  }

  lemma SameTextIff(a: string, b: string)
    ensures SameIgnoringCase(a, b) <==> SameText(a, b)
  {
    forall i | 0 <= i < |a| && i < |b| ensures ToLower(a[i]) == ToLower(b[i]) <==> SameLetter(a[i], b[i]) {
    }
  }

  /** As far as n characters reach, the two strings end together and have the same letters. */
  predicate SameTextUpTo(a: string, b: string, n: nat) {
    && (|a| == |b| || (|a| >= n && |b| >= n))
    && forall i | 0 <= i < n && i < |a| && i < |b| :: SameLetter(a[i], b[i])
  }

  lemma SameTextUpToIff(a: string, b: string, n: nat)
    ensures SameIgnoringCase(FirstChars(a, n), FirstChars(b, n)) <==> SameTextUpTo(a, b, n)
  {
    hide SameIgnoringCase;
    hide SameLetter;
    SameTextIff(FirstChars(a, n), FirstChars(b, n));
  }

  function FirstChars(s: string, n: nat): string {
    if |s| <= n then s else s[..n]
  }

  /** istrncmp is 0 exactly when the first n characters are the same but for case. */
  method IStrNCmp(a: string, b: string, n: nat) returns (r: int)
    requires '\0' !in a && '\0' !in b
    ensures r == 0 <==> SameIgnoringCase(FirstChars(a, n), FirstChars(b, n))
    ensures r == 0 <==> SameTextUpTo(a, b, n)
  {
    SameTextUpToIff(a, b, n);
    var i := 0;
    while i < n
      invariant 0 <= i <= n && i <= |a| && i <= |b|
      invariant forall k | 0 <= k < i :: ToLower(a[k]) == ToLower(b[k])
    {
      var x, y := CharAt(a, i), CharAt(b, i);
      if x != y && ToLower(x) != ToLower(y) {
        assert i < |a| || i < |b|;
        return x as int - y as int;
      } else if x == '\0' {
        break;
      }
      i := i + 1;
    }
    r := 0;
  }

  /** strnlen: the length, or 0 for a string longer than the limit. */
  method StrNLen(str: string, limit: nat) returns (n: nat)
    requires '\0' !in str
    ensures n == if |str| <= limit then |str| else 0
  {
    n := 0;
    while CharAt(str, n) != '\0'
      invariant n <= |str| && n <= limit
      decreases |str| - n
    {
      if n == limit {
        return 0;
      }
      n := n + 1;
    }
  }
}
