/**
 * `hash_bin_diff` of the integrity checker: both hashes are read with
 * `int(h, 16)` and `bin` of their bitwise XOR is printed without its first two
 * characters, so a reader of a corruption report can see which bits of a
 * checksum flipped.
 */
module HashDiff {
  import opened Wrappers
  import opened Text

  // ---------------------------------------------------------------------------
  // The text int(h, 16) accepts
  // ---------------------------------------------------------------------------

  /**
   * The whitespace `int` skips around a numeral: what `str.isspace` accepts,
   * except the ASCII separators 0x1C-0x1F, which `int` leaves in place and then
   * rejects.
   */
  predicate IntSpace(c: char) {
    IsSpace(c) && !(0x1C <= c as int <= 0x1F)
  }

  predicate AllIntSpace(s: string) {
    forall k :: 0 <= k < |s| ==> IntSpace(s[k])
  }

  /**
   * The digit part of a numeral: hexadecimal digits, with single underscores
   * allowed between two digits.
   */
  predicate Grouped(d: string) {
    && |d| > 0 && d[0] != '_' && d[|d| - 1] != '_'
    && (forall k :: 0 <= k < |d| ==> IsHexDigit(d[k]) || d[k] == '_')
    && NoDoubleUnderscore(d)
  }

  predicate NoDoubleUnderscore(d: string)
    decreases |d|
  {
    |d| < 2 || ((d[0] != '_' || d[1] != '_') && NoDoubleUnderscore(d[1..]))
  }

  /** The digits of a grouped numeral with the underscores taken out. */
  function Ungroup(d: string): (u: string)
    ensures (forall k :: 0 <= k < |d| ==> IsHexDigit(d[k]) || d[k] == '_') ==> AllDigitsBelow(u, 16)
    ensures (forall k :: 0 <= k < |d| ==> d[k] != '_') ==> u == d
    decreases |d|
  {
    if |d| == 0 then ""
    else
      assert d == [d[0]] + d[1..];
      (if d[0] == '_' then "" else [d[0]]) + Ungroup(d[1..])
  }

  /**
   * A numeral as `int(h, 16)` reads it: whitespace, an optional sign, an
   * optional `0x` or `0X` prefix (which may be followed by one underscore), the
   * digits, whitespace.
   */
  datatype HexLiteral = HexLiteral(lead: string, sign: string, prefix: string, digits: string, trail: string)

  /** A sign, a prefix and grouped digits, as `int` accepts them one after the other. */
  predicate NumeralParts(sign: string, prefix: string, digits: string) {
    && (sign == "" || sign == "+" || sign == "-")
    && (prefix == "" || prefix == "0x" || prefix == "0X" || prefix == "0x_" || prefix == "0X_")
    && Grouped(digits)
  }

  predicate WellFormed(l: HexLiteral) {
    AllIntSpace(l.lead) && AllIntSpace(l.trail) && NumeralParts(l.sign, l.prefix, l.digits)
  }

  /** The text between the whitespace. */
  function NumeralText(l: HexLiteral): string {
    l.sign + l.prefix + l.digits
  }

  function LiteralText(l: HexLiteral): string {
    l.lead + NumeralText(l) + l.trail
  }

  /** The number a well-formed literal denotes. */
  function LiteralValue(l: HexLiteral): int
    requires WellFormed(l)
  {
    var n: int := NumeralValue(Ungroup(l.digits), 16);
    if l.sign == "-" then -n else n
  }

  /** How many whitespace characters `int` skips at the start of `s`. */
  function LeadingSpace(s: string): (n: nat)
    ensures n <= |s|
    ensures forall k :: 0 <= k < n ==> IntSpace(s[k])
    ensures n < |s| ==> !IntSpace(s[n])
    decreases |s|
  {
    if |s| == 0 || !IntSpace(s[0]) then 0 else 1 + LeadingSpace(s[1..])
  }

  /** How many whitespace characters `int` skips at the end of `s`. */
  function TrailingSpace(s: string): (n: nat)
    ensures n <= |s|
    ensures forall k :: |s| - n <= k < |s| ==> IntSpace(s[k])
    ensures n < |s| ==> !IntSpace(s[|s| - n - 1])
    decreases |s|
  {
    if |s| == 0 || !IntSpace(s[|s| - 1]) then 0 else 1 + TrailingSpace(s[..|s| - 1])
  }

  /** The sign at the start of the text between the whitespace. */
  function SignOf(core: string): (sign: string)
    ensures sign == "" || sign == "+" || sign == "-"
    ensures |sign| <= |core| && sign == core[..|sign|]
  {
    if |core| > 0 && core[0] == '+' then "+"
    else if |core| > 0 && core[0] == '-' then "-"
    else ""
  }

  /** The base prefix after the sign, with the one underscore it may carry. */
  function PrefixOf(body: string): (prefix: string)
    ensures prefix == "" || prefix == "0x" || prefix == "0X" || prefix == "0x_" || prefix == "0X_"
    ensures |prefix| <= |body| && prefix == body[..|prefix|]
  {
    if |body| >= 2 && body[0] == '0' && (body[1] == 'x' || body[1] == 'X') then
      if |body| >= 3 && body[2] == '_' then body[..3] else body[..2]
    else ""
  }

  /** The numeral between the whitespace, cut into sign, prefix and digits. */
  function SplitNumeral(core: string): (r: Option<(string, string, string)>)
    ensures r.Some? ==> NumeralParts(r.value.0, r.value.1, r.value.2)
    ensures r.Some? ==> r.value.0 + r.value.1 + r.value.2 == core
  {
    var sign := SignOf(core);
    var body := core[|sign|..];
    var prefix := PrefixOf(body);
    var digits := body[|prefix|..];
    if Grouped(digits) then
      assert sign + prefix + digits == core by {
        assert body == prefix + digits;
        assert core == sign + body;
        ConcatAssociates(sign, prefix, digits);
      }
      Some((sign, prefix, digits))
    else None
  }

  /**
   * The parts `int(h, 16)` finds in `h`, in the order it scans them; `None`
   * where the text between the whitespace is not a numeral.
   */
  function Decompose(h: string): (r: Option<HexLiteral>)
    ensures r.Some? ==> WellFormed(r.value) && LiteralText(r.value) == h
  {
    var n := LeadingSpace(h);
    var m := TrailingSpace(h[n..]);
    match SplitNumeral(h[n..][..|h| - n - m])
    case Some((sign, prefix, digits)) =>
      var l := HexLiteral(h[..n], sign, prefix, digits, h[n..][|h| - n - m..]);
      assert WellFormed(l) && LiteralText(l) == h by {
        SkippedIsSpace(h);
        Reassemble(h, n, m, l);
      }
      Some(l)
    case None => None
  }

  /** Whitespace, numeral and whitespace, cut from `h` in that order, make up `h`. */
  lemma Reassemble(h: string, n: nat, m: nat, l: HexLiteral)
    requires n + m <= |h|
    requires l.lead == h[..n] && l.trail == h[n..][|h| - n - m..]
    requires NumeralText(l) == h[n..][..|h| - n - m]
    ensures LiteralText(l) == h
  {
    CutAndJoin(h[n..], |h| - n - m);
    CutAndJoin(h, n);
    ConcatAssociates(l.lead, NumeralText(l), l.trail);
  }

  /** What the scan skips before and after the numeral is whitespace. */
  lemma SkippedIsSpace(h: string)
    ensures AllIntSpace(h[..LeadingSpace(h)])
    ensures var rest := h[LeadingSpace(h)..];
            AllIntSpace(rest[|rest| - TrailingSpace(rest)..])
  {
    var rest := h[LeadingSpace(h)..];
    var m := TrailingSpace(rest);
    var trail := rest[|rest| - m..];
    forall k | 0 <= k < |trail|
      ensures IntSpace(trail[k])
    {
      assert trail[k] == rest[|rest| - m + k];
    }
  }

  lemma CutAndJoin(s: string, i: nat)
    requires i <= |s|
    ensures s[..i] + s[i..] == s
  {
  }

  lemma ConcatAssociates(a: string, b: string, c: string)
    ensures a + b + c == a + (b + c)
  {
  }

  /** Digits without underscores are a grouped numeral. */
  lemma {:induction false} NoUnderscoreNoDouble(d: string)
    requires forall k :: 0 <= k < |d| ==> d[k] != '_'
    ensures NoDoubleUnderscore(d)
    decreases |d|
  {
    if |d| >= 2 {
      NoUnderscoreNoDouble(d[1..]);
    }
  }

  /** `int(h, 16)`; `None` where Python raises `ValueError`. */
  function ParseHex(h: string): (r: Option<int>)
    ensures r.Some? ==> exists l :: WellFormed(l) && LiteralText(l) == h && r.value == LiteralValue(l)
  {
    match Decompose(h)
    case Some(l) => Some(LiteralValue(l))
    case None => None
  }

  /** A character that can start or end the numeral is not whitespace. */
  lemma NumeralCharNotSpace(c: char)
    requires IsHexDigit(c) || c == '+' || c == '-'
    ensures !IntSpace(c)
  {
  }

  lemma LeadingSpaceExact(s: string, n: nat)
    requires n <= |s| && forall k :: 0 <= k < n ==> IntSpace(s[k])
    requires n < |s| ==> !IntSpace(s[n])
    ensures LeadingSpace(s) == n
  {
  }

  lemma TrailingSpaceExact(s: string, n: nat)
    requires n <= |s| && forall k :: |s| - n <= k < |s| ==> IntSpace(s[k])
    requires n < |s| ==> !IntSpace(s[|s| - n - 1])
    ensures TrailingSpace(s) == n
  {
  }

  lemma SignOfLiteral(sign: string, body: string)
    requires sign == "" || sign == "+" || sign == "-"
    requires |body| > 0 && body[0] != '+' && body[0] != '-'
    ensures SignOf(sign + body) == sign
  {
  }

  lemma PrefixOfLiteral(prefix: string, digits: string)
    requires prefix == "" || prefix == "0x" || prefix == "0X" || prefix == "0x_" || prefix == "0X_"
    requires Grouped(digits)
    ensures PrefixOf(prefix + digits) == prefix
  {
    if prefix == "" {
      assert digits[0] != 'x' && digits[0] != 'X';
      assert |digits| >= 2 ==> digits[1] != 'x' && digits[1] != 'X';
    }
  }

  /** Sign, prefix and digits are found again in the numeral written from them. */
  lemma SplitNumeralText(sign: string, prefix: string, digits: string)
    requires NumeralParts(sign, prefix, digits)
    ensures SplitNumeral(sign + prefix + digits) == Some((sign, prefix, digits))
  {
    var body := prefix + digits;
    ConcatAssociates(sign, prefix, digits);
    SignOfLiteral(sign, body);
    assert (sign + body)[|sign|..] == body;
    PrefixOfLiteral(prefix, digits);
    assert body[|prefix|..] == digits;
  }

  /**
   * The parts of a well-formed literal are found again in its text: whitespace
   * and numeral meet at characters that cannot be mistaken for each other.
   */
  lemma DecomposeText(l: HexLiteral)
    requires WellFormed(l)
    ensures Decompose(LiteralText(l)) == Some(l)
  {
    var h := LiteralText(l);
    var core := NumeralText(l);
    LeadingOfLiteral(l);
    TrailingOfNumeral(l);
    SplitNumeralText(l.sign, l.prefix, l.digits);
  }

  /** The scan skips exactly the literal's leading whitespace. */
  lemma LeadingOfLiteral(l: HexLiteral)
    requires WellFormed(l)
    ensures LeadingSpace(LiteralText(l)) == |l.lead|
    ensures LiteralText(l)[..|l.lead|] == l.lead
    ensures LiteralText(l)[|l.lead|..] == NumeralText(l) + l.trail
  {
    var h := LiteralText(l);
    var core := NumeralText(l);
    ConcatAssociates(l.lead, core, l.trail);
    assert core[0] == (if l.sign != "" then l.sign[0] else if l.prefix != "" then l.prefix[0] else l.digits[0]);
    NumeralCharNotSpace(core[0]);
    LeadingSpaceExact(h, |l.lead|);
  }

  /** After the numeral, the scan skips exactly the literal's trailing whitespace. */
  lemma TrailingOfNumeral(l: HexLiteral)
    requires WellFormed(l)
    ensures TrailingSpace(NumeralText(l) + l.trail) == |l.trail|
    ensures (NumeralText(l) + l.trail)[..|NumeralText(l)|] == NumeralText(l)
    ensures (NumeralText(l) + l.trail)[|NumeralText(l)|..] == l.trail
  {
    var core := NumeralText(l);
    assert core[|core| - 1] == l.digits[|l.digits| - 1];
    NumeralCharNotSpace(core[|core| - 1]);
    TrailingSpaceExact(core + l.trail, |l.trail|);
  }

  /** `int(h, 16)` accepts every well-formed literal and reads its value. */
  lemma ParseHexAccepts(l: HexLiteral)
    requires WellFormed(l)
    ensures ParseHex(LiteralText(l)) == Some(LiteralValue(l))
  {
    DecomposeText(l);
  }

  /** Plain hexadecimal digits, as the history file stores them, read as their numeral value. */
  lemma PlainHexParses(h: string)
    requires IsHex(h)
    ensures ParseHex(h) == Some(NumeralValue(h, 16))
  {
    var l := HexLiteral("", "", "", h, "");
    assert forall k :: 0 <= k < |h| ==> h[k] != '_';
    assert Ungroup(h) == h;
    NoUnderscoreNoDouble(h);
    assert WellFormed(l);
    assert LiteralValue(l) == NumeralValue(h, 16);
    assert LiteralText(l) == h;
    ParseHexAccepts(l);
  }

  /** The characters a literal can contain. */
  predicate LiteralChar(c: char) {
    IntSpace(c) || IsHexDigit(c) || c == '_' || c == '+' || c == '-' || c == 'x' || c == 'X'
  }

  lemma LiteralChars(l: HexLiteral)
    requires WellFormed(l)
    ensures forall c :: c in LiteralText(l) ==> LiteralChar(c)
    ensures l.digits[0] in LiteralText(l) && IsHexDigit(l.digits[0])
  {
    assert forall c :: c in l.digits ==> LiteralChar(c);
    assert l.digits[0] in l.digits;
  }

  /**
   * What `int` refuses: any character outside whitespace, digits, sign,
   * underscore and the `x` of the prefix, and text with no digit at all.
   */
  lemma ParseHexRejects(h: string)
    requires (exists c :: c in h && !LiteralChar(c)) || (forall c :: c in h ==> !IsHexDigit(c))
    ensures ParseHex(h) == None
  {
    if ParseHex(h).Some? {
      var l :| WellFormed(l) && LiteralText(l) == h && ParseHex(h).value == LiteralValue(l);
      LiteralChars(l);
    }
  }

  lemma {:induction false} NoDoubleUnderscoreAt(d: string, j: nat)
    requires NoDoubleUnderscore(d) && j + 1 < |d|
    ensures d[j] != '_' || d[j + 1] != '_'
    decreases j
  {
    if j > 0 {
      NoDoubleUnderscoreAt(d[1..], j - 1);
    }
  }

  /** Before the digits, only the last character can be an underscore. */
  lemma UnderscoreEndsPrefix(l: HexLiteral)
    requires WellFormed(l)
    ensures forall k :: 0 <= k < |l.lead + l.sign + l.prefix| - 1 ==> (l.lead + l.sign + l.prefix)[k] != '_'
  {
    var pre := l.lead + l.sign + l.prefix;
    forall k | 0 <= k < |pre| - 1
      ensures pre[k] != '_'
    {
      if k < |l.lead| {
        assert pre[k] == l.lead[k] && IntSpace(l.lead[k]);
      } else if k < |l.lead| + |l.sign| {
        assert pre[k] == l.sign[k - |l.lead|];
      } else {
        assert pre[k] == l.prefix[k - |l.lead| - |l.sign|];
      }
    }
  }

  /**
   * A literal never holds two underscores in a row: whitespace, sign and prefix
   * hold at most one underscore, at the end of the prefix, and the digits
   * never two in a row.
   */
  lemma LiteralNoDoubleUnderscore(l: HexLiteral, i: nat)
    requires WellFormed(l) && i + 1 < |LiteralText(l)|
    ensures LiteralText(l)[i] != '_' || LiteralText(l)[i + 1] != '_'
  {
    var h := LiteralText(l);
    var pre := l.lead + l.sign + l.prefix;
    var d := l.digits;
    assert h == pre + d + l.trail by {
      ConcatAssociates(l.lead, l.sign + l.prefix, d);
      ConcatAssociates(l.lead, l.sign, l.prefix);
      ConcatAssociates(l.lead + l.sign, l.prefix, d);
    }
    UnderscoreEndsPrefix(l);
    if i + 1 < |pre| {
      assert h[i] == pre[i];
    } else if i + 1 == |pre| {
      assert h[i + 1] == d[0];
    } else if i + 1 < |pre| + |d| {
      assert h[i] == d[i - |pre|] && h[i + 1] == d[i - |pre| + 1];
      NoDoubleUnderscoreAt(d, i - |pre|);
    } else if i + 1 == |pre| + |d| {
      assert h[i] == d[|d| - 1];
    } else {
      assert h[i] == l.trail[i - |pre| - |d|] && IntSpace(h[i]);
    }
  }

  /** `int` refuses two underscores in a row anywhere in its argument. */
  lemma DoubledUnderscoreRejected(h: string, i: nat)
    requires i + 1 < |h| && h[i] == '_' && h[i + 1] == '_'
    ensures ParseHex(h) == None
  {
    if ParseHex(h).Some? {
      var l :| WellFormed(l) && LiteralText(l) == h && ParseHex(h).value == LiteralValue(l);
      LiteralNoDoubleUnderscore(l, i);
    }
  }

  // ---------------------------------------------------------------------------
  // Bitwise XOR
  // ---------------------------------------------------------------------------

  /** `a ^ b` on non-negative integers, one bit at a time from the least significant. */
  function Xor(a: nat, b: nat): nat
    decreases a + b
  {
    if a == 0 && b == 0 then 0
    else 2 * Xor(a / 2, b / 2) + (if a % 2 != b % 2 then 1 else 0)
  }

  lemma {:induction false} XorSelf(a: nat)
    ensures Xor(a, a) == 0
    decreases a
  {
    if a != 0 {
      XorSelf(a / 2);
    }
  }

  lemma {:induction false} XorCommutes(a: nat, b: nat)
    ensures Xor(a, b) == Xor(b, a)
    decreases a + b
  {
    if a != 0 || b != 0 {
      XorCommutes(a / 2, b / 2);
    }
  }

  lemma {:induction false} XorZero(a: nat)
    ensures Xor(a, 0) == a
    decreases a
  {
    if a != 0 {
      XorZero(a / 2);
    }
  }

  /** XOR-ing with `b` twice gives back the original: the difference identifies the flipped bits. */
  lemma {:induction false} XorCancels(a: nat, b: nat)
    ensures Xor(Xor(a, b), b) == a
    decreases a + b
  {
    var c := Xor(a, b);
    if a == 0 && b == 0 {
    } else if c == 0 && b == 0 {
      XorZero(a);
    } else {
      XorCancels(a / 2, b / 2);
      assert c / 2 == Xor(a / 2, b / 2);
      assert c % 2 == (if a % 2 != b % 2 then 1 else 0);
    }
  }

  /**
   * `a ^ b` on integers of any sign, as Python computes it on unbounded two's
   * complement: a negative `x` is the complement `~(-x - 1)`, and
   * `~x ^ y == ~(x ^ y)`.
   */
  function IntXor(a: int, b: int): (c: int)
    ensures c < 0 <==> (a < 0) != (b < 0)
  {
    if a >= 0 && b >= 0 then Xor(a, b)
    else if a < 0 && b < 0 then Xor(-a - 1, -b - 1)
    else if a < 0 then -(Xor(-a - 1, b) as int) - 1
    else -(Xor(a, -b - 1) as int) - 1
  }

  /** Complementing one operand complements the result, for every sign. */
  lemma IntXorComplement(a: int, b: int)
    ensures IntXor(-a - 1, b) == -IntXor(a, b) - 1
  {
  }

  lemma IntXorSelf(a: int)
    ensures IntXor(a, a) == 0
  {
    if a >= 0 {
      XorSelf(a);
    } else {
      XorSelf(-a - 1);
    }
  }

  lemma IntXorCommutes(a: int, b: int)
    ensures IntXor(a, b) == IntXor(b, a)
  {
    if a >= 0 && b >= 0 {
      XorCommutes(a, b);
    } else if a < 0 && b < 0 {
      XorCommutes(-a - 1, -b - 1);
    } else if a < 0 {
      XorCommutes(-a - 1, b);
    } else {
      XorCommutes(a, -b - 1);
    }
  }

  /** XOR-ing twice with the same integer gives back the original, whatever the signs. */
  lemma IntXorCancels(a: int, b: int)
    ensures IntXor(IntXor(a, b), b) == a
  {
    if a >= 0 && b >= 0 {
      XorCancels(a, b);
    } else if a < 0 && b < 0 {
      XorCancels(-a - 1, -b - 1);
    } else if a < 0 {
      XorCancels(-a - 1, b);
    } else {
      XorCancels(a, -b - 1);
    }
  }

  // ---------------------------------------------------------------------------
  // hash_bin_diff
  // ---------------------------------------------------------------------------

  /**
   * `bin(x)[2:]`: the binary digits of a non-negative `x`; for a negative `x`
   * Python writes `-0b…`, so what is left is `b` and the digits of `-x`.
   */
  function BinTail(x: int): (s: string)
    ensures |s| > 0
    ensures x >= 0 ==> AllDigitsBelow(s, 2) && NumeralValue(s, 2) == x
    ensures x < 0 ==> s[0] == 'b' && AllDigitsBelow(s[1..], 2) && NumeralValue(s[1..], 2) == -x
  {
    if x >= 0 then
      NumeralRoundTrip(x, 2);
      Numeral(x, 2)
    else
      NumeralRoundTrip(-x, 2);
      assert ("b" + Numeral(-x, 2))[1..] == Numeral(-x, 2);
      "b" + Numeral(-x, 2)
  }

  /** `hash_bin_diff(hash1, hash2)`: `None` where `int(…, 16)` raises. */
  function HashBinDiff(hash1: string, hash2: string): (r: Option<string>)
    ensures r.Some? <==> ParseHex(hash1).Some? && ParseHex(hash2).Some?
    ensures r.Some? ==>
      var x := IntXor(ParseHex(hash1).value, ParseHex(hash2).value);
      && |r.value| > 0
      && (x >= 0 ==> AllDigitsBelow(r.value, 2) && NumeralValue(r.value, 2) == x)
      && (x < 0 ==> r.value[0] == 'b' && AllDigitsBelow(r.value[1..], 2) && NumeralValue(r.value[1..], 2) == -x)
  {
    match (ParseHex(hash1), ParseHex(hash2))
    case (Some(a), Some(b)) => Some(BinTail(IntXor(a, b)))
    case _ => None
  }

  /** Two plain hexadecimal hashes give the binary digits of the XOR of their values. */
  lemma PlainHashBinDiff(hash1: string, hash2: string)
    requires IsHex(hash1) && IsHex(hash2)
    ensures HashBinDiff(hash1, hash2).Some?
    ensures AllDigitsBelow(HashBinDiff(hash1, hash2).value, 2)
    ensures NumeralValue(HashBinDiff(hash1, hash2).value, 2) == Xor(NumeralValue(hash1, 16), NumeralValue(hash2, 16))
  {
    var a, b := NumeralValue(hash1, 16), NumeralValue(hash2, 16);
    PlainHexParses(hash1);
    PlainHexParses(hash2);
    assert IntXor(a, b) == Xor(a, b);
    assert HashBinDiff(hash1, hash2) == Some(BinTail(Xor(a, b)));
  }

  /** A hash `int` accepts, compared with itself, differs in no bit: the diff is `"0"`. */
  lemma HashBinDiffSelf(h: string)
    requires ParseHex(h).Some?
    ensures HashBinDiff(h, h) == Some("0")
  {
    IntXorSelf(ParseHex(h).value);
  }

  /** The diff does not depend on which hash is old and which is new. */
  lemma HashBinDiffSymmetric(hash1: string, hash2: string)
    ensures HashBinDiff(hash1, hash2) == HashBinDiff(hash2, hash1)
  {
    if ParseHex(hash1).Some? && ParseHex(hash2).Some? {
      IntXorCommutes(ParseHex(hash1).value, ParseHex(hash2).value);
    }
  }

  /** Hashes of opposite signs give a diff that starts with `b`, not a binary digit. */
  lemma OppositeSignsGiveB(hash1: string, hash2: string)
    requires ParseHex(hash1).Some? && ParseHex(hash2).Some?
    requires ParseHex(hash1).value < 0 <= ParseHex(hash2).value
    ensures HashBinDiff(hash1, hash2).Some? && HashBinDiff(hash1, hash2).value[0] == 'b'
  {
  }

  /** `bin(-1)[2:]` is `'b1'`. */
  lemma BinTailMinusOne()
    ensures BinTail(-1) == "b1"
  {
    assert Numeral(1, 2) == "1" by {
      assert DigitChar(1) == '1';
    }
    assert BinTail(-1) == "b" + Numeral(1, 2);
  }

  /** `int('-1', 16)` is -1. */
  lemma ParseMinusOne()
    ensures ParseHex("-1") == Some(-1)
  {
    var l := HexLiteral("", "-", "", "1", "");
    assert LiteralText(l) == "-1";
    assert Ungroup("1") == "1";
    assert LiteralValue(l) == -1;
    ParseHexAccepts(l);
  }

  /** `int('0', 16)` is 0. */
  lemma ParseZero()
    ensures ParseHex("0") == Some(0)
  {
    var l := HexLiteral("", "", "", "0", "");
    assert LiteralText(l) == "0";
    assert Ungroup("0") == "0";
    assert LiteralValue(l) == 0;
    ParseHexAccepts(l);
  }

  /** `hash_bin_diff('-1', '0')` is `'b1'`. */
  lemma MinusOneAgainstZero()
    ensures HashBinDiff("-1", "0") == Some("b1")
  {
    ParseMinusOne();
    ParseZero();
    BinTailMinusOne();
  }
}
