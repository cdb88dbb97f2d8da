/**
 * String helpers the Python utilities get from the language: splitting a text
 * file into lines, `str.lower()`, `str.isspace()`, `str.isdigit()`, `int(s, base)`,
 * `str(n)`, `hex(n)[2:]` and `bin(n)[2:]`.
 *
 * Scope of the character classes: lower-casing and digits are modelled on ASCII;
 * whitespace is Python's full `str.isspace()` set.
 */
module Text {

  // ---------------------------------------------------------------------------
  // Lines
  // ---------------------------------------------------------------------------

  /** Index of the first `c` in `s`, or `|s|` if there is none. */
  function IndexOf(s: string, c: char): (i: nat)
    ensures i <= |s|
    ensures forall k :: 0 <= k < i ==> s[k] != c
    ensures i < |s| ==> s[i] == c
  {
    if |s| == 0 || s[0] == c then 0 else 1 + IndexOf(s[1..], c)
  }

  /** The first `c` is at `n` when nothing before `n` is a `c` and `n` is a `c` or the end. */
  lemma IndexOfAt(s: string, c: char, n: nat)
    requires n <= |s|
    requires forall k :: 0 <= k < n ==> s[k] != c
    requires n < |s| ==> s[n] == c
    ensures IndexOf(s, c) == n
  {
  }

  /**
   * The lines a text-mode file yields when iterated, each with its trailing
   * `'\n'` removed (`line.rstrip('\n')`). A final newline does not start an extra
   * line; an empty file has no lines.
   */
  function SplitLines(text: string): (lines: seq<string>)
    ensures forall k :: 0 <= k < |lines| ==> '\n' !in lines[k]
    decreases |text|
  {
    if |text| == 0 then []
    else
      var i := IndexOf(text, '\n');
      if i == |text| then [text] else [text[..i]] + SplitLines(text[i + 1..])
  }

  /** The text of a file whose lines are written one after another, each ended by `'\n'`. */
  function JoinLines(lines: seq<string>): string {
    if |lines| == 0 then "" else lines[0] + "\n" + JoinLines(lines[1..])
  }

  /** Splitting undoes joining when no line contains a newline of its own. */
  lemma {:induction false} SplitJoinLines(lines: seq<string>)
    requires forall k :: 0 <= k < |lines| ==> '\n' !in lines[k]
    ensures SplitLines(JoinLines(lines)) == lines
  {
    if |lines| > 0 {
      var text := JoinLines(lines);
      var first := lines[0];
      var rest := JoinLines(lines[1..]);
      assert text == first + ("\n" + rest);
      assert forall k :: 0 <= k < |first| ==> text[k] == first[k] && first[k] != '\n';
      IndexOfAt(text, '\n', |first|);
      assert text[..|first|] == first;
      assert text[|first| + 1..] == rest;
      SplitJoinLines(lines[1..]);
      assert SplitLines(text) == [first] + SplitLines(rest);
      assert [first] + lines[1..] == lines;
    }
  }

  // ---------------------------------------------------------------------------
  // Character classes
  // ---------------------------------------------------------------------------

  /** `c.isspace()`: Python's whitespace characters (the `\s` of a `str` pattern). */
  predicate IsSpace(c: char) {
    var u := c as int;
    || (0x09 <= u <= 0x0D)                  // \t \n \v \f \r
    || (0x1C <= u <= 0x20)                  // file/group/record/unit separators, space
    || u == 0x85 || u == 0xA0 || u == 0x1680
    || (0x2000 <= u <= 0x200A)
    || u == 0x2028 || u == 0x2029 || u == 0x202F || u == 0x205F || u == 0x3000
  }

  predicate NoSpace(s: string) {
    forall k :: 0 <= k < |s| ==> !IsSpace(s[k])
  }

  predicate IsAsciiDigit(c: char) {
    '0' <= c <= '9'
  }

  /** `s.isdigit()` / `s.isnumeric()` on ASCII: non-empty and all digits. */
  predicate IsDecimal(s: string) {
    |s| > 0 && forall k :: 0 <= k < |s| ==> IsAsciiDigit(s[k])
  }

  predicate IsHexDigit(c: char) {
    IsAsciiDigit(c) || ('a' <= c <= 'f') || ('A' <= c <= 'F')
  }

  /** A digit string that `int(s, 16)` accepts in its plain form. */
  predicate IsHex(s: string) {
    |s| > 0 && forall k :: 0 <= k < |s| ==> IsHexDigit(s[k])
  }

  function LowerChar(c: char): (l: char)
    ensures 'A' <= c <= 'Z' ==> l as int == c as int + 32
    ensures !('A' <= c <= 'Z') ==> l == c
  {
    if 'A' <= c <= 'Z' then (c as int + 32) as char else c
  }

  /** `s.lower()` on ASCII letters. */
  function Lower(s: string): (r: string)
    ensures |r| == |s|
    ensures forall k {:trigger r[k]} :: 0 <= k < |s| ==> r[k] == LowerChar(s[k])
  {
    seq(|s|, k requires 0 <= k < |s| => LowerChar(s[k]))
  }

  /** Text without upper-case ASCII letters is its own lower-case form. */
  lemma LowerOfLowerCase(s: string)
    requires forall k :: 0 <= k < |s| ==> !('A' <= s[k] <= 'Z')
    ensures Lower(s) == s
  {
  }

  // ---------------------------------------------------------------------------
  // Numerals
  // ---------------------------------------------------------------------------

  /** The value of a digit character in bases up to 16 (either letter case). */
  function DigitValue(c: char): (d: nat)
    requires IsHexDigit(c)
    ensures d < 16
    ensures IsAsciiDigit(c) <==> d < 10
  {
    if IsAsciiDigit(c) then c as int - '0' as int
    else if 'a' <= c <= 'f' then c as int - 'a' as int + 10
    else c as int - 'A' as int + 10
  }

  /** The lower-case character of digit `d`, as `str`, `hex` and `bin` print it. */
  function DigitChar(d: nat): (c: char)
    requires d < 16
    ensures IsHexDigit(c) && DigitValue(c) == d
    ensures d < 10 ==> IsAsciiDigit(c)
    ensures !('A' <= c <= 'Z')
  {
    if d < 10 then ('0' as int + d) as char else ('a' as int + d - 10) as char
  }

  /** The bases the utilities print in: `bin`, `str` and `hex`. */
  predicate Radix(base: nat) {
    base == 2 || base == 10 || base == 16
  }

  predicate AllDigitsBelow(s: string, base: nat) {
    forall k :: 0 <= k < |s| ==> IsHexDigit(s[k]) && DigitValue(s[k]) < base
  }

  /** `int(s, base)` for a plain digit string (most significant digit first). */
  function NumeralValue(s: string, base: nat): nat
    requires AllDigitsBelow(s, base)
  {
    if |s| == 0 then 0
    else NumeralValue(s[..|s| - 1], base) * base + DigitValue(s[|s| - 1])
  }

  /**
   * `n` written in `base` without leading zeros (`"0"` for zero): `str(n)`,
   * `hex(n)[2:]` and `bin(n)[2:]` for non-negative `n`.
   */
  function Numeral(n: nat, base: nat): (s: string)
    requires Radix(base)
    ensures |s| > 0 && AllDigitsBelow(s, base)
    decreases n
  {
    if n < base then [DigitChar(n)]
    else
      var q, r := n / base, n % base;
      DivStep(n, base);
      Numeral(q, base) + [DigitChar(r)]
  }

  /**
   * A numeral is one word of lower-case digits; in base 10 it is a decimal
   * string; it starts with `0` only when it is `"0"`.
   */
  lemma {:induction false} NumeralForm(n: nat, base: nat)
    requires Radix(base)
    ensures NoSpace(Numeral(n, base)) && '\n' !in Numeral(n, base)
    ensures forall k :: 0 <= k < |Numeral(n, base)| ==> !('A' <= Numeral(n, base)[k] <= 'Z')
    ensures base == 10 ==> IsDecimal(Numeral(n, base))
    ensures Numeral(n, base)[0] == '0' ==> n == 0
    decreases n
  {
    if n >= base {
      DivStep(n, base);
      NumeralForm(n / base, base);
      var s := Numeral(n, base);
      assert s == Numeral(n / base, base) + [DigitChar(n % base)];
    }
  }

  /** Reading a numeral back gives the number it was written from. */
  lemma {:induction false} NumeralRoundTrip(n: nat, base: nat)
    requires Radix(base)
    ensures NumeralValue(Numeral(n, base), base) == n
    decreases n
  {
    var s := Numeral(n, base);
    if n >= base {
      var q, r := n / base, n % base;
      DivStep(n, base);
      NumeralRoundTrip(q, base);
      assert s[..|s| - 1] == Numeral(q, base);
      assert DigitValue(s[|s| - 1]) == r;
    }
  }

  /** Dropping the last digit of a numeral of two or more digits. */
  lemma DivStep(n: nat, base: nat)
    requires Radix(base) && base <= n
    ensures 0 < n / base < n && n % base < base
    ensures n == (n / base) * base + n % base
  {
    if base == 2 {
      assert 0 < n / 2 < n;
    } else if base == 10 {
      assert 0 < n / 10 < n;
    } else {
      assert 0 < n / 16 < n;
    }
  }

  /** `str(n)` for any integer: a minus sign before the digits of a negative number. */
  function IntToDecimal(i: int): (s: string)
    ensures i >= 0 ==> IsDecimal(s) && NumeralValue(s, 10) == i
    ensures i < 0 ==> |s| > 0 && s[0] == '-'
    ensures NoSpace(s) && '\n' !in s
  {
    if i >= 0 then
      NumeralRoundTrip(i, 10);
      NumeralForm(i, 10);
      Numeral(i, 10)
    else
      NumeralForm(-i, 10);
      "-" + Numeral(-i, 10)
  }

  /** A decimal digit string is accepted by `NumeralValue` in base 10. */
  lemma DecimalDigitsBelowTen(s: string)
    requires IsDecimal(s)
    ensures AllDigitsBelow(s, 10)
  {
  }
}
