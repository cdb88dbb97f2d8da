/**
 * `getLettersUsedInText` from the alphabet generator page: the distinct
 * characters of a text, sorted by a bubble sort that starts over after every
 * swap, with carriage return, line feed and tab dropped.
 *
 * JavaScript strings are sequences of UTF-16 code units and `charAt` and `>`
 * work on code units, so the model's characters are code units.
 */
module Alphabet {

  /** One UTF-16 code unit. */
  newtype CodeUnit = x: int | 0 <= x < 0x1_0000

  /** `'\r'`, `'\n'` and `'\t'`, which never reach the alphabet. */
  predicate LineControl(c: CodeUnit) {
    c == 13 || c == 10 || c == 9
  }

  predicate NoDuplicates(s: seq<CodeUnit>) {
    forall p, q :: 0 <= p < q < |s| ==> s[p] != s[q]
  }

  predicate StrictlyAscending(s: seq<CodeUnit>) {
    forall p, q :: 0 <= p < q < |s| ==> s[p] < s[q]
  }

  // ---------------------------------------------------------------------------
  // The keys of the `letters` object
  // ---------------------------------------------------------------------------

  /** The distinct code units of `text` in order of first occurrence: the keys as they are inserted. */
  function FirstOccurrences(text: seq<CodeUnit>): (keys: seq<CodeUnit>)
    ensures NoDuplicates(keys)
    ensures forall c :: c in keys <==> c in text
  {
    if |text| == 0 then []
    else
      var init := text[..|text| - 1];
      var c := text[|text| - 1];
      var keys := FirstOccurrences(init);
      assert text == init + [c];
      if c in keys then keys else keys + [c]
  }

  /** The decimal digit code units `'0'` to `'9'`. */
  predicate IsDigitUnit(c: CodeUnit) {
    48 <= c <= 57
  }

  /** The digits among `keys` from `d` up to `'9'`, in ascending order. */
  function DigitKeys(keys: seq<CodeUnit>, d: CodeUnit): (r: seq<CodeUnit>)
    requires 48 <= d <= 58
    ensures forall c :: c in r <==> c in keys && d <= c <= 57
    ensures StrictlyAscending(r)
    ensures forall k :: 0 <= k < |r| ==> d <= r[k]
    decreases 58 - d
  {
    if d == 58 then []
    else
      var rest := DigitKeys(keys, d + 1);
      if d in keys then [d] + rest else rest
  }

  /** The keys among `keys` that are not digits, in their order. */
  function OtherKeys(keys: seq<CodeUnit>): (r: seq<CodeUnit>)
    ensures forall c :: c in r <==> c in keys && !IsDigitUnit(c)
    ensures NoDuplicates(keys) ==> NoDuplicates(r)
  {
    if |keys| == 0 then []
    else
      var rest := OtherKeys(keys[1..]);
      assert forall c :: c in rest ==> c in keys[1..];
      if IsDigitUnit(keys[0]) then rest else [keys[0]] + rest
  }

  /**
   * The order `for (key in letters)` visits the keys: the one-digit keys are
   * array indices and come first in ascending order, the others follow in
   * insertion order.
   */
  function EnumerationOrder(text: seq<CodeUnit>): (keys: seq<CodeUnit>)
    ensures NoDuplicates(keys)
    ensures forall c :: c in keys <==> c in text
  {
    var inserted := FirstOccurrences(text);
    var digits := DigitKeys(inserted, 48);
    var others := OtherKeys(inserted);
    assert forall p, q :: 0 <= p < |digits| && 0 <= q < |others| ==> digits[p] != others[q] by {
      forall p, q | 0 <= p < |digits| && 0 <= q < |others|
        ensures digits[p] != others[q]
      {
        assert digits[p] in digits && others[q] in others;
      }
    }
    digits + others
  }

  // ---------------------------------------------------------------------------
  // Inversions and adjacent swaps
  // ---------------------------------------------------------------------------

  /** How many elements of `t` are below `x`. */
  function CountBelow(x: CodeUnit, t: seq<CodeUnit>): nat {
    if |t| == 0 then 0 else (if t[0] < x then 1 else 0) + CountBelow(x, t[1..])
  }

  /** The number of pairs that are out of order. */
  function Inversions(s: seq<CodeUnit>): nat {
    if |s| == 0 then 0 else CountBelow(s[0], s[1..]) + Inversions(s[1..])
  }

  /** Exchanging the neighbours at `j` and `j + 1`. */
  function Swap(s: seq<CodeUnit>, j: nat): (r: seq<CodeUnit>)
    requires j + 1 < |s|
    ensures |r| == |s| && r[j] == s[j + 1] && r[j + 1] == s[j]
    ensures forall k :: 0 <= k < |s| && k != j && k != j + 1 ==> r[k] == s[k]
    ensures multiset(r) == multiset(s)
  {
    assert s == s[..j] + [s[j], s[j + 1]] + s[j + 2..];
    s[..j] + [s[j + 1], s[j]] + s[j + 2..]
  }

  /** Swapping two neighbours of `t` does not change how many elements of `t` lie below `x`. */
  lemma {:induction false} CountBelowSwap(x: CodeUnit, t: seq<CodeUnit>, j: nat)
    requires j + 1 < |t|
    ensures CountBelow(x, Swap(t, j)) == CountBelow(x, t)
    decreases j
  {
    var u := Swap(t, j);
    if j == 0 {
      assert u[1..][1..] == t[1..][1..];
    } else {
      assert u[1..] == Swap(t[1..], j - 1);
      CountBelowSwap(x, t[1..], j - 1);
    }
  }

  /** Swapping an out-of-order pair of neighbours removes exactly one inversion. */
  lemma {:induction false} SwapRemovesOneInversion(s: seq<CodeUnit>, j: nat)
    requires j + 1 < |s| && s[j] > s[j + 1]
    ensures Inversions(Swap(s, j)) == Inversions(s) - 1
    decreases j
  {
    var u := Swap(s, j);
    if j == 0 {
      var a, b, t := s[0], s[1], s[2..];
      assert s[1..] == [b] + t && u[1..] == [a] + t;
      assert ([b] + t)[1..] == t && ([a] + t)[1..] == t;
      assert CountBelow(a, [b] + t) == 1 + CountBelow(a, t);
      assert CountBelow(b, [a] + t) == CountBelow(b, t);
    } else {
      assert u[0] == s[0];
      assert u[1..] == Swap(s[1..], j - 1);
      CountBelowSwap(s[0], s[1..], j - 1);
      SwapRemovesOneInversion(s[1..], j - 1);
    }
  }

  /** The neighbours at `k - 1` and `k` are in strictly ascending order. */
  predicate InOrderAt(s: seq<CodeUnit>, k: nat)
    requires 1 <= k < |s|
  {
    s[k - 1] < s[k]
  }

  /** Neighbours in order, and no repeats, make the whole sequence strictly ascending. */
  lemma {:induction false} AdjacentOrderIsAscending(s: seq<CodeUnit>)
    requires forall k :: 1 <= k < |s| ==> InOrderAt(s, k)
    ensures StrictlyAscending(s)
    decreases |s|
  {
    if |s| > 1 {
      var n := |s|;
      var init := s[..n - 1];
      assert forall k :: 0 <= k < n - 1 ==> init[k] == s[k];
      assert forall k :: 1 <= k < n - 1 ==> InOrderAt(s, k) && InOrderAt(init, k);
      AdjacentOrderIsAscending(init);
      assert InOrderAt(s, n - 1);
      forall p, q | 0 <= p < q < n
        ensures s[p] < s[q]
      {
        if q < n - 1 {
          assert init[p] < init[q];
        } else if p < n - 2 {
          assert init[p] < init[n - 2];
        }
      }
    }
  }

  /** Swapping two neighbours keeps the elements distinct. */
  lemma SwapKeepsNoDuplicates(s: seq<CodeUnit>, j: nat)
    requires j + 1 < |s| && NoDuplicates(s)
    ensures NoDuplicates(Swap(s, j))
  {
    var r := Swap(s, j);
    forall p, q | 0 <= p < q < |r|
      ensures r[p] != r[q]
    {
      var p' := if p == j then j + 1 else if p == j + 1 then j else p;
      var q' := if q == j then j + 1 else if q == j + 1 then j else q;
      assert r[p] == s[p'] && r[q] == s[q'] && p' != q';
      if p' > q' {
        assert s[q'] != s[p'];
      }
    }
  }

  // ---------------------------------------------------------------------------
  // The sort and the whole function
  // ---------------------------------------------------------------------------

  /**
   * The sorting loop: walk the neighbours from the start, and after every swap
   * start over. It ends because each swap removes one inversion.
   */
  method RestartBubbleSort(keys: seq<CodeUnit>) returns (a: seq<CodeUnit>)
    requires NoDuplicates(keys)
    ensures multiset(a) == multiset(keys)
    ensures StrictlyAscending(a)
  {
    a := keys;
    var i := 1;
    while i < |a|
      invariant |a| == |keys|
      invariant 1 <= i && (i <= |a| || |a| == 0)
      invariant multiset(a) == multiset(keys)
      invariant NoDuplicates(a)
      invariant forall k :: 1 <= k < i && k < |a| ==> InOrderAt(a, k)
      decreases Inversions(a), |a| - i
    {
      var x, y := a[i - 1], a[i];
      if x > y {
        SwapRemovesOneInversion(a, i - 1);
        SwapKeepsNoDuplicates(a, i - 1);
        a := Swap(a, i - 1);
        i := 0;
      } else {
        assert x != y;
        assert InOrderAt(a, i);
      }
      i := i + 1;
    }
    AdjacentOrderIsAscending(a);
  }

  /** The output loop: append every letter except CR, LF and TAB, keeping the order. */
  method DropLineControls(used: seq<CodeUnit>) returns (output: seq<CodeUnit>)
    requires StrictlyAscending(used)
    ensures StrictlyAscending(output)
    ensures forall c :: c in output <==> c in used && !LineControl(c)
  {
    output := [];
    var i := 0;
    while i < |used|
      invariant i <= |used|
      invariant StrictlyAscending(output)
      invariant forall c :: c in output <==> c in used[..i] && !LineControl(c)
      invariant forall k :: 0 <= k < |output| ==> output[k] in used[..i]
    {
      var letter := used[i];
      assert forall c :: c in used[..i] ==> c < letter;
      if !LineControl(letter) {
        output := output + [letter];
      }
      assert used[..i + 1] == used[..i] + [letter];
      i := i + 1;
    }
    assert used[..|used|] == used;
  }

  /**
   * `getLettersUsedInText`: the alphabet of `text` is strictly ascending and
   * holds exactly the code units of `text` other than CR, LF and TAB.
   */
  method GetLettersUsedInText(text: seq<CodeUnit>) returns (output: seq<CodeUnit>)
    ensures StrictlyAscending(output)
    ensures forall c :: c in output <==> c in text && !LineControl(c)
  {
    var keys := EnumerationOrder(text);
    var used := RestartBubbleSort(keys);
    assert forall c :: c in used <==> c in multiset(used);
    assert forall c :: c in keys <==> c in multiset(keys);
    output := DropLineControls(used);
  }

  /** The set of elements of a sequence. */
  function Elements(s: seq<CodeUnit>): set<CodeUnit> {
    set c | c in s
  }

  /** A sequence without repeats has as many elements as its set. */
  lemma {:induction false} DistinctElementCount(s: seq<CodeUnit>)
    requires NoDuplicates(s)
    ensures |Elements(s)| == |s|
    decreases |s|
  {
    if |s| > 0 {
      var n := |s|;
      var init := s[..n - 1];
      assert forall k :: 0 <= k < n - 1 ==> init[k] == s[k];
      DistinctElementCount(init);
      assert s == init + [s[n - 1]];
      assert Elements(s) == Elements(init) + {s[n - 1]};
      assert forall k :: 0 <= k < n - 1 ==> init[k] != s[n - 1];
      assert s[n - 1] !in Elements(init);
    }
  }

  /** Two strictly ascending sequences with the same elements are equal: the alphabet is determined by the text. */
  lemma {:induction false} AscendingIsDeterminedBySet(a: seq<CodeUnit>, b: seq<CodeUnit>)
    requires StrictlyAscending(a) && StrictlyAscending(b)
    requires forall c :: c in a <==> c in b
    ensures a == b
    decreases |a|
  {
    DistinctElementCount(a);
    DistinctElementCount(b);
    assert Elements(a) == Elements(b);
    if |a| > 0 {
      assert a[0] in b;
      assert a[0] == b[0] by {
        assert a[0] in b && b[0] in a;
      }
      assert forall c :: c in a[1..] <==> c in b[1..] by {
        forall c
          ensures c in a[1..] <==> c in b[1..]
        {
          if c in a[1..] {
            assert c in a && c != a[0];
          }
          if c in b[1..] {
            assert c in b && c != b[0];
          }
        }
      }
      AscendingIsDeterminedBySet(a[1..], b[1..]);
      assert a == [a[0]] + a[1..] && b == [b[0]] + b[1..];
    }
  }

  /** The alphabet depends only on which code units occur, not on their order or count. */
  method AlphabetIgnoresOrder(text1: seq<CodeUnit>, text2: seq<CodeUnit>) returns (same: bool)
    requires forall c :: c in text1 <==> c in text2
    ensures same
  {
    var out1 := GetLettersUsedInText(text1);
    var out2 := GetLettersUsedInText(text2);
    AscendingIsDeterminedBySet(out1, out2);
    same := out1 == out2;
  }
}
