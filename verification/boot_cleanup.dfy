/**
 * `boot-cleanup.py`: finds the installed kernels (`vmlinuz-<version>` in the boot
 * directory), sorts their versions in natural order, and moves every file of all
 * but the newest `keep_versions` versions into `<boot>/removed`.
 *
 * The directory is given as the list of names it contains, in the order `glob`
 * returns them; the moves and the directory creation are returned as a list of
 * effects instead of being performed.
 */
module BootCleanup {
  import opened Wrappers
  import opened Text

  // ---------------------------------------------------------------------------
  // Natural sort key
  // ---------------------------------------------------------------------------

  /** One element of `natural_sort_key`: lower-cased text between digit runs, or a digit run's value. */
  datatype KeyPart = Text(text: string) | Number(value: nat)

  /** Parts alternate text, number, text, …, text (read from the end). */
  predicate Alternating(key: seq<KeyPart>) {
    && |key| > 0
    && key[|key| - 1].Text?
    && (|key| == 1 || (|key| >= 3 && key[|key| - 2].Number? && Alternating(key[..|key| - 2])))
  }

  /** An alternating key has odd length, text at even positions and numbers at odd ones. */
  lemma {:induction false} AlternatingShape(key: seq<KeyPart>)
    requires Alternating(key)
    ensures |key| % 2 == 1
    ensures forall i :: 0 <= i < |key| ==> (key[i].Text? <==> i % 2 == 0)
    decreases |key|
  {
    if |key| > 1 {
      AlternatingShape(key[..|key| - 2]);
      assert forall i :: 0 <= i < |key| - 2 ==> key[i] == key[..|key| - 2][i];
    }
  }

  predicate EndsWithDigit(s: string) {
    |s| > 0 && IsAsciiDigit(s[|s| - 1])
  }

  /**
   * How the key changes when `c` is appended to a string (that ends in a digit
   * or not): a non-digit extends the last text, lower-cased; a digit after a
   * digit extends the number before the empty last text; any other digit
   * starts a new number.
   */
  function Extend(k: seq<KeyPart>, afterDigit: bool, c: char): (r: seq<KeyPart>)
    requires Alternating(k)
    requires afterDigit ==> |k| >= 3 && k[|k| - 1] == Text("")
    ensures Alternating(r)
    ensures IsAsciiDigit(c) ==> |r| >= 3 && r[|r| - 1] == Text("")
  {
    var n := |k|;
    if !IsAsciiDigit(c) then
      var key := k[..n - 1] + [Text(k[n - 1].text + [LowerChar(c)])];
      assert n > 1 ==> key[..n - 2] == k[..n - 2];
      key
    else if afterDigit then
      var key := k[..n - 2] + [Number(k[n - 2].value * 10 + DigitValue(c)), Text("")];
      assert key[..n - 2] == k[..n - 2];
      key
    else
      var key := k + [Number(DigitValue(c)), Text("")];
      assert key[..n] == k;
      key
  }

  /**
   * `natural_sort_key(s)`: `re.split('([0-9]+)', s)` keeps the digit runs as
   * separators, so the pieces are text, digits, text, …, text (the text pieces
   * possibly empty); digit runs become integers and text is lower-cased.
   * Built one character at a time from the end.
   */
  function NaturalKey(s: string): (key: seq<KeyPart>)
    ensures Alternating(key)
    ensures EndsWithDigit(s) ==> |key| >= 3 && key[|key| - 1] == Text("")
    decreases |s|
  {
    if |s| == 0 then [Text("")]
    else
      var init, c := s[..|s| - 1], s[|s| - 1];
      assert EndsWithDigit(s) == IsAsciiDigit(c);
      Extend(NaturalKey(init), EndsWithDigit(init), c)
  }

  /** Appending one character extends the key by one step. */
  lemma {:induction false} KeyAppend(s: string, c: char)
    ensures NaturalKey(s + [c]) == Extend(NaturalKey(s), EndsWithDigit(s), c)
  {
    assert (s + [c])[..|s|] == s;
  }

  /** The parts of a key: never a number next to a number, and the key has odd length. */
  lemma KeyShape(s: string)
    ensures |NaturalKey(s)| % 2 == 1
    ensures forall i :: 0 <= i < |NaturalKey(s)| ==> (NaturalKey(s)[i].Text? <==> i % 2 == 0)
  {
    AlternatingShape(NaturalKey(s));
  }

  /** Text without digits is a single lower-cased text part. */
  lemma {:induction false} KeyOfText(s: string)
    requires forall k :: 0 <= k < |s| ==> !IsAsciiDigit(s[k])
    ensures NaturalKey(s) == [Text(Lower(s))]
    decreases |s|
  {
    if |s| > 0 {
      var init := s[..|s| - 1];
      KeyOfText(init);
      assert Lower(s) == Lower(init) + [LowerChar(s[|s| - 1])];
    }
  }

  /** A non-digit extends the last text of the key, lower-cased. */
  lemma {:induction false} KeyAppendText(s: string, c: char)
    requires !IsAsciiDigit(c)
    ensures var k := NaturalKey(s);
            NaturalKey(s + [c]) == k[..|k| - 1] + [Text(k[|k| - 1].text + [LowerChar(c)])]
  {
    KeyAppend(s, c);
  }

  /** A digit after a digit extends the last number of the key. */
  lemma {:induction false} KeyAppendDigit(s: string, c: char)
    requires EndsWithDigit(s) && IsAsciiDigit(c)
    ensures var k := NaturalKey(s);
            NaturalKey(s + [c]) == k[..|k| - 2] + [Number(k[|k| - 2].value * 10 + DigitValue(c)), Text("")]
  {
    KeyAppend(s, c);
  }

  /** A digit after anything else starts a new number. */
  lemma {:induction false} KeyAppendFirstDigit(s: string, c: char)
    requires !EndsWithDigit(s) && IsAsciiDigit(c)
    ensures NaturalKey(s + [c]) == NaturalKey(s) + [Number(DigitValue(c)), Text("")]
  {
    KeyAppend(s, c);
  }

  /** A decimal numeral after text that does not end in a digit adds its value as one number part. */
  lemma {:induction false} KeyOfNumeralSuffix(s: string, n: nat)
    requires !EndsWithDigit(s)
    ensures NaturalKey(s + Numeral(n, 10)) == NaturalKey(s) + [Number(n), Text("")]
    decreases n
  {
    if n < 10 {
      KeyAppendFirstDigit(s, DigitChar(n));
    } else {
      DivStep(n, 10);
      var prefix := s + Numeral(n / 10, 10);
      var c := DigitChar(n % 10);
      assert s + Numeral(n, 10) == prefix + [c];
      KeyOfNumeralSuffix(s, n / 10);
      NumeralForm(n / 10, 10);
      assert EndsWithDigit(prefix);
      KeyAppendDigit(prefix, c);
      var k := NaturalKey(s) + [Number(n / 10), Text("")];
      assert k[..|k| - 2] == NaturalKey(s);
      assert k[|k| - 2].value * 10 + DigitValue(c) == n;
    }
  }

  lemma {:induction false} LowerEndsWithDigit(s: string)
    ensures EndsWithDigit(Lower(s)) == EndsWithDigit(s)
  {
    if |s| > 0 {
      assert Lower(s)[|s| - 1] == LowerChar(s[|s| - 1]);
    }
  }

  /** A step of the key does not depend on the letter case of the appended character. */
  lemma {:induction false} ExtendIgnoresCase(k: seq<KeyPart>, afterDigit: bool, c: char)
    requires Alternating(k)
    requires afterDigit ==> |k| >= 3 && k[|k| - 1] == Text("")
    ensures Extend(k, afterDigit, LowerChar(c)) == Extend(k, afterDigit, c)
  {
    if IsAsciiDigit(c) {
      assert LowerChar(c) == c;
    } else {
      assert !IsAsciiDigit(LowerChar(c)) && LowerChar(LowerChar(c)) == LowerChar(c);
    }
  }

  /** Appending a character and its lower-case form to strings with equal keys gives equal keys. */
  lemma {:induction false} AppendLowerChar(init: string, c: char)
    requires NaturalKey(Lower(init)) == NaturalKey(init)
    ensures NaturalKey(Lower(init) + [LowerChar(c)]) == NaturalKey(init + [c])
  {
    LowerEndsWithDigit(init);
    KeyAppend(Lower(init), LowerChar(c));
    KeyAppend(init, c);
    ExtendIgnoresCase(NaturalKey(init), EndsWithDigit(init), c);
  }

  /** The key does not depend on letter case: `key(s) == key(s.lower())`. */
  lemma {:induction false} NaturalKeyIgnoresCase(s: string)
    ensures NaturalKey(Lower(s)) == NaturalKey(s)
    decreases |s|
  {
    if |s| > 0 {
      var init, c := s[..|s| - 1], s[|s| - 1];
      assert s == init + [c];
      assert Lower(s) == Lower(init) + [LowerChar(c)];
      NaturalKeyIgnoresCase(init);
      AppendLowerChar(init, c);
    }
  }

  // ---------------------------------------------------------------------------
  // Ordering of keys (Python's comparison of lists, strings and integers)
  // ---------------------------------------------------------------------------

  /** `a < b` on strings: code points compared lexicographically, a proper prefix first. */
  predicate TextLess(a: string, b: string) {
    |b| > 0 && (|a| == 0 || a[0] < b[0] || (a[0] == b[0] && TextLess(a[1..], b[1..])))
  }

  /**
   * `x < y` on key parts of the same kind. Text and numbers never meet at the
   * same position of two natural keys (see `KeysNeverMixKinds`), where Python
   * would raise `TypeError`; here they are unordered.
   */
  predicate PartLess(x: KeyPart, y: KeyPart) {
    match (x, y)
    case (Text(a), Text(b)) => TextLess(a, b)
    case (Number(m), Number(n)) => m < n
    case _ => false
  }

  /** `a < b` on keys: lexicographic over the parts, a proper prefix first. */
  predicate KeyLess(a: seq<KeyPart>, b: seq<KeyPart>) {
    |b| > 0 && (|a| == 0 || PartLess(a[0], b[0]) || (a[0] == b[0] && KeyLess(a[1..], b[1..])))
  }

  /** Two natural keys have parts of the same kind wherever both have a part. */
  lemma KeysNeverMixKinds(s: string, t: string)
    ensures forall i :: 0 <= i < |NaturalKey(s)| && i < |NaturalKey(t)| ==>
              NaturalKey(s)[i].Text? == NaturalKey(t)[i].Text?
  {
    AlternatingShape(NaturalKey(s));
    AlternatingShape(NaturalKey(t));
  }

  lemma {:induction false} TextLessAsymmetric(a: string, b: string)
    ensures TextLess(a, b) ==> !TextLess(b, a)
    decreases |a|
  {
    if |a| > 0 && |b| > 0 && a[0] == b[0] {
      TextLessAsymmetric(a[1..], b[1..]);
    }
  }

  /** `<` on keys is asymmetric: no two versions are each before the other. */
  lemma {:induction false} KeyLessAsymmetric(a: seq<KeyPart>, b: seq<KeyPart>)
    ensures KeyLess(a, b) ==> !KeyLess(b, a)
    decreases |a|
  {
    if |a| > 0 && |b| > 0 {
      if a[0].Text? && b[0].Text? {
        TextLessAsymmetric(a[0].text, b[0].text);
      }
      if a[0] == b[0] {
        KeyLessAsymmetric(a[1..], b[1..]);
      }
    }
  }

  /** A common prefix does not change how two keys compare. */
  lemma {:induction false} KeyLessCommonPrefix(k: seq<KeyPart>, a: seq<KeyPart>, b: seq<KeyPart>)
    requires KeyLess(a, b)
    ensures KeyLess(k + a, k + b)
    decreases |k|
  {
    if |k| > 0 {
      KeyLessCommonPrefix(k[1..], a, b);
      assert (k + a)[0] == k[0] == (k + b)[0];
      assert (k + a)[1..] == k[1..] + a;
      assert (k + b)[1..] == k[1..] + b;
    } else {
      assert k + a == a && k + b == b;
    }
  }

  /**
   * Versions that differ only in a final number compare by the number's value,
   * not by its digits as text.
   */
  lemma VersionsCompareNumerically(s: string, m: nat, n: nat)
    requires !EndsWithDigit(s) && m < n
    ensures KeyLess(NaturalKey(s + Numeral(m, 10)), NaturalKey(s + Numeral(n, 10)))
  {
    KeyOfNumeralSuffix(s, m);
    KeyOfNumeralSuffix(s, n);
    KeyLessCommonPrefix(NaturalKey(s), [Number(m), Text("")], [Number(n), Text("")]);
  }

  /** `5.9` sorts before `5.10`, although as plain strings `5.10` comes first. */
  lemma NumericOrderExample()
    ensures KeyLess(NaturalKey("5.9"), NaturalKey("5.10"))
    ensures TextLess("5.10", "5.9")
  {
    assert Numeral(9, 10) == "9";
    assert Numeral(10, 10) == Numeral(1, 10) + "0";
    assert "5.9" == "5." + Numeral(9, 10);
    assert "5.10" == "5." + Numeral(10, 10);
    VersionsCompareNumerically("5.", 9, 10);
    assert TextLess("10", "9");
    assert "5.10"[1..] == ".10" && "5.9"[1..] == ".9";
    assert ".10"[1..] == "10" && ".9"[1..] == "9";
  }

  // ---------------------------------------------------------------------------
  // Sorting (`versions.sort(key=natural_sort_key)`)
  // ---------------------------------------------------------------------------

  /** No version is after its successor in natural order. */
  predicate SortedByKey(vs: seq<string>) {
    forall i :: 0 < i < |vs| ==> !KeyLess(NaturalKey(vs[i]), NaturalKey(vs[i - 1]))
  }

  /** Inserts `v` after every version whose key is not greater (keeping equal keys in arrival order). */
  function Insert(v: string, sorted: seq<string>): (r: seq<string>)
    requires SortedByKey(sorted)
    ensures SortedByKey(r)
    ensures multiset(r) == multiset(sorted) + multiset{v}
    ensures |r| > 0 && (r[0] == v || (|sorted| > 0 && r[0] == sorted[0]))
  {
    if |sorted| == 0 then [v]
    else if KeyLess(NaturalKey(v), NaturalKey(sorted[0])) then
      KeyLessAsymmetric(NaturalKey(v), NaturalKey(sorted[0]));
      [v] + sorted
    else
      var tail := Insert(v, sorted[1..]);
      assert sorted == [sorted[0]] + sorted[1..];
      [sorted[0]] + tail
  }

  /** `versions.sort(key=natural_sort_key)`: a stable insertion sort. */
  function SortVersions(vs: seq<string>): (r: seq<string>)
    ensures SortedByKey(r)
    ensures multiset(r) == multiset(vs)
  {
    if |vs| == 0 then []
    else
      assert vs == vs[..|vs| - 1] + [vs[|vs| - 1]];
      Insert(vs[|vs| - 1], SortVersions(vs[..|vs| - 1]))
  }

  // ---------------------------------------------------------------------------
  // Finding kernels and their files
  // ---------------------------------------------------------------------------

  const KernelPrefix: string := "vmlinuz-"

  /** `base_dir.joinpath(name)`, without pathlib's normalisation. */
  function JoinPath(base: string, name: string): string {
    base + "/" + name
  }

  predicate StartsWith(s: string, prefix: string) {
    |prefix| <= |s| && s[..|prefix|] == prefix
  }

  /** `part` occurs somewhere in `s`. */
  predicate Contains(s: string, part: string) {
    StartsWith(s, part) || (|s| > 0 && Contains(s[1..], part))
  }

  /** An occurrence at a known position is an occurrence. */
  lemma {:induction false} ContainsAt(s: string, part: string, i: nat)
    requires i + |part| <= |s| && s[i..i + |part|] == part
    ensures Contains(s, part)
    decreases i
  {
    if i > 0 {
      assert s[1..][i - 1..i - 1 + |part|] == part;
      ContainsAt(s[1..], part, i - 1);
    }
  }

  /** `part` occurs in `s` ending exactly at position `j`. */
  predicate EndsAt(s: string, part: string, j: int) {
    |part| <= j <= |s| && s[j - |part|..j] == part
  }

  /** The end of the last occurrence of `part` in `s` at or before position `j`. */
  function LastEndAtMost(s: string, part: string, j: nat): (r: Option<nat>)
    requires j <= |s|
    ensures r.Some? ==> r.value <= j && EndsAt(s, part, r.value)
    ensures r.Some? ==> forall k :: r.value < k <= j ==> !EndsAt(s, part, k)
    ensures r.None? ==> forall k :: 0 <= k <= j ==> !EndsAt(s, part, k)
  {
    if EndsAt(s, part, j) then Some(j)
    else if j == 0 then None
    else LastEndAtMost(s, part, j - 1)
  }

  /**
   * `re.match(r".*vmlinuz-(.*)", path)[1]`: the greedy `.*` puts the group after
   * the last `vmlinuz-` of the path.
   */
  function VersionOf(path: string): (v: Option<string>)
    ensures v.Some? ==> |v.value| <= |path| && v.value == path[|path| - |v.value|..]
    ensures v.Some? ==> EndsAt(path, KernelPrefix, |path| - |v.value|)
    ensures v.Some? ==> forall k :: |path| - |v.value| < k <= |path| ==> !EndsAt(path, KernelPrefix, k)
    ensures v.None? <==> forall j :: 0 <= j <= |path| ==> !EndsAt(path, KernelPrefix, j)
  {
    match LastEndAtMost(path, KernelPrefix, |path|)
    case None => None
    case Some(j) => Some(path[j..])
  }

  /** Under a base directory that itself contains `vmlinuz-`, the version still comes from the kernel's own name. */
  lemma VersionOfUsesLastOccurrence()
    ensures VersionOf("/mnt/vmlinuz-old/vmlinuz-5.1") == Some("5.1")
  {
    var path := "/mnt/vmlinuz-old/vmlinuz-5.1";
    var n := |path|;
    forall j | n - 3 < j <= n
      ensures !EndsAt(path, KernelPrefix, j)
    {
      assert path[j - |KernelPrefix|..j][|KernelPrefix| - 1] == path[j - 1] != '-';
    }
    assert EndsAt(path, KernelPrefix, n - 3);
    assert LastEndAtMost(path, KernelPrefix, n) == Some(n - 3);
    assert path[n - 3..] == "5.1";
  }

  /** A name `*` matches in a glob: not hidden. */
  predicate Visible(name: string) {
    |name| > 0 && name[0] != '.'
  }

  /** The glob `*<infix>*` matches the name. */
  predicate Globbed(name: string, infix: string) {
    Visible(name) && Contains(name, infix)
  }

  /** No text occurs twice: a directory listing's names, or the paths a glob returns. */
  predicate Distinct(texts: seq<string>) {
    forall i, j :: 0 <= i < j < |texts| ==> texts[i] != texts[j]
  }

  /** Different names in one directory are different paths. */
  lemma {:induction false} JoinPathInjective(base: string, a: string, b: string)
    requires JoinPath(base, a) == JoinPath(base, b)
    ensures a == b
  {
    assert a == JoinPath(base, a)[|base| + 1..];
    assert b == JoinPath(base, b)[|base| + 1..];
  }

  /** `glob(base_dir/pattern)` for `*<infix>*`: the visible names that contain `infix`, in listing order. */
  function GlobContaining(base: string, listing: seq<string>, infix: string): (paths: seq<string>)
    ensures |paths| <= |listing|
    ensures forall p :: p in paths ==> exists n :: n in listing && Globbed(n, infix) && p == JoinPath(base, n)
    ensures forall n :: n in listing && Globbed(n, infix) ==> JoinPath(base, n) in paths
  {
    if |listing| == 0 then []
    else
      var n := listing[0];
      var rest := GlobContaining(base, listing[1..], infix);
      if Globbed(n, infix) then [JoinPath(base, n)] + rest else rest
  }

  /** A listing without repeated names globs every path at most once. */
  lemma {:induction false} GlobDistinct(base: string, listing: seq<string>, infix: string)
    requires Distinct(listing)
    ensures Distinct(GlobContaining(base, listing, infix))
    decreases |listing|
  {
    if |listing| > 0 {
      var n := listing[0];
      var tail := listing[1..];
      assert Distinct(tail) by {
        forall i, j | 0 <= i < j < |tail| ensures tail[i] != tail[j] {
          assert tail[i] == listing[i + 1] && tail[j] == listing[j + 1];
        }
      }
      GlobDistinct(base, tail, infix);
      var rest := GlobContaining(base, tail, infix);
      if Globbed(n, infix) {
        var head := JoinPath(base, n);
        assert head !in rest by {
          if head in rest {
            var m :| m in tail && Globbed(m, infix) && head == JoinPath(base, m);
            JoinPathInjective(base, m, n);
          }
        }
        var paths := [head] + rest;
        forall i, j | 0 <= i < j < |paths| ensures paths[i] != paths[j] {
          assert paths[j] == rest[j - 1] && rest[j - 1] in rest;
          if i > 0 {
            assert paths[i] == rest[i - 1];
            assert rest[i - 1] != rest[j - 1];
          }
        }
        assert GlobContaining(base, listing, infix) == paths;
      }
    }
  }

  /**
   * The names a glob for `*<infix>*` leaves in the directory once its matches
   * have been moved away, in listing order.
   */
  function Unglobbed(listing: seq<string>, infix: string): (rest: seq<string>)
    ensures |rest| <= |listing|
    ensures forall n :: n in rest <==> n in listing && !Globbed(n, infix)
    ensures Distinct(listing) ==> Distinct(rest)
  {
    if |listing| == 0 then []
    else
      var n := listing[0];
      var tail := Unglobbed(listing[1..], infix);
      assert Distinct(listing) ==> Distinct(listing[1..]) by {
        if Distinct(listing) {
          forall i, j | 0 <= i < j < |listing[1..]| ensures listing[1..][i] != listing[1..][j] {
            assert listing[1..][i] == listing[i + 1] && listing[1..][j] == listing[j + 1];
          }
        }
      }
      if Globbed(n, infix) then tail
      else
        var all := [n] + tail;
        assert Distinct(listing) ==> Distinct(all) by {
          if Distinct(listing) {
            forall i, j | 0 <= i < j < |all| ensures all[i] != all[j] {
              if i == 0 {
                assert all[j] in tail;
                assert all[j] in listing[1..];
                var k :| 0 <= k < |listing[1..]| && listing[1..][k] == all[j];
                assert listing[k + 1] == all[j];
              } else {
                assert all[i] == tail[i - 1] && all[j] == tail[j - 1];
              }
            }
          }
        }
        all
  }

  /** The version of every `vmlinuz-*` entry (`glob("vmlinuz-*")`), in listing order. */
  function KernelVersions(base: string, listing: seq<string>): (vs: seq<string>)
    ensures |vs| <= |listing|
    ensures forall v :: v in vs ==>
              exists n :: n in listing && StartsWith(n, KernelPrefix) && VersionOf(JoinPath(base, n)) == Some(v)
    ensures forall n :: n in listing && StartsWith(n, KernelPrefix) ==>
              VersionOf(JoinPath(base, n)).Some? && VersionOf(JoinPath(base, n)).value in vs
    ensures Distinct(listing) ==> |vs| == |set n | n in listing && StartsWith(n, KernelPrefix)|
  {
    if |listing| == 0 then []
    else
      var n := listing[0];
      var rest := KernelVersions(base, listing[1..]);
      KernelNamesCons(listing);
      if StartsWith(n, KernelPrefix) then
        KernelPathHasVersion(base, n);
        [VersionOf(JoinPath(base, n)).value] + rest
      else rest
  }

  /** The `vmlinuz-*` names of a listing are those of its head and of its tail; in a distinct listing the head is not in the tail. */
  lemma KernelNamesCons(listing: seq<string>)
    requires |listing| > 0
    ensures (set n | n in listing && StartsWith(n, KernelPrefix)) ==
              (if StartsWith(listing[0], KernelPrefix) then {listing[0]} else {})
              + (set n | n in listing[1..] && StartsWith(n, KernelPrefix))
    ensures Distinct(listing) ==> Distinct(listing[1..]) && listing[0] !in listing[1..]
  {
    assert listing == [listing[0]] + listing[1..];
    if Distinct(listing) {
      forall i, j | 0 <= i < j < |listing[1..]|
        ensures listing[1..][i] != listing[1..][j]
      {
        assert listing[1..][i] == listing[i + 1] && listing[1..][j] == listing[j + 1];
      }
    }
  }

  /** A kernel entry always yields a version: its path contains `vmlinuz-`. */
  lemma KernelPathHasVersion(base: string, n: string)
    requires StartsWith(n, KernelPrefix)
    ensures VersionOf(JoinPath(base, n)).Some?
  {
    var p := JoinPath(base, n);
    var j := |base| + 1 + |KernelPrefix|;
    assert p[j - |KernelPrefix|..j] == n[..|KernelPrefix|];
    assert EndsAt(p, KernelPrefix, j);
  }

  /**
   * `*<version>*` is a substring match: the files of a version whose text is a
   * prefix of another's are globbed together with it, so removing `5.1` also
   * moves the files of `5.10`.
   */
  lemma GlobOverMatches()
    ensures GlobContaining("/boot", ["vmlinuz-5.10"], "5.1") == ["/boot/vmlinuz-5.10"]
  {
    var n := "vmlinuz-5.10";
    assert n[8..8 + 3] == "5.1";
    ContainsAt(n, "5.1", 8);
    assert ["vmlinuz-5.10"][1..] == [];
    assert JoinPath("/boot", n) == "/boot/vmlinuz-5.10";
  }

  // ---------------------------------------------------------------------------
  // Cleanup
  // ---------------------------------------------------------------------------

  datatype Effect = MakeDirectory(path: string) | Move(source: string, target: string)

  /** The `AssertionError` of `cleanup`. */
  datatype CleanupError = NegativeKeepVersions

  /** What `cleanup` decides: the sorted versions, the ones it removes and keeps, and its file-system effects. */
  datatype Plan = Plan(sorted: seq<string>, remove: seq<string>, keep: set<string>, effects: seq<Effect>)

  /** How many of `n` sorted versions are removed when `keep` are to be kept. */
  function RemoveCount(n: nat, keep: nat): (c: nat)
    ensures c <= n
    ensures keep >= n ==> c == 0
    ensures keep < n ==> c + keep == n
  {
    if keep >= n then 0 else n - keep
  }

  /**
   * The moves of every related file of each removed version into `target`,
   * version by version. Each glob runs after the previous versions' files were
   * moved away, so it sees only the names they left behind.
   */
  function MoveAll(base: string, listing: seq<string>, remove: seq<string>, target: string): (effects: seq<Effect>)
    ensures forall e :: e in effects ==> e.Move? && e.target == target
    decreases |remove|
  {
    if |remove| == 0 then []
    else
      MovesTo(GlobContaining(base, listing, remove[0]), target)
      + MoveAll(base, Unglobbed(listing, remove[0]), remove[1..], target)
  }

  /** No two moves of the sequence take the same file. */
  predicate DistinctSources(effects: seq<Effect>) {
    forall i, j :: 0 <= i < j < |effects| && effects[i].Move? && effects[j].Move? ==>
      effects[i].source != effects[j].source
  }

  /** Every move takes a listed file that the glob of some removed version matches. */
  lemma {:induction false} MoveAllSound(base: string, listing: seq<string>, remove: seq<string>, target: string)
    ensures forall e :: e in MoveAll(base, listing, remove, target) ==>
              exists n, i :: n in listing && 0 <= i < |remove| && Globbed(n, remove[i]) && e.source == JoinPath(base, n)
    decreases |remove|
  {
    if |remove| > 0 {
      var globbed := GlobContaining(base, listing, remove[0]);
      var left := Unglobbed(listing, remove[0]);
      var moves := MovesTo(globbed, target);
      var rest := MoveAll(base, left, remove[1..], target);
      MoveAllSound(base, left, remove[1..], target);
      forall e: Effect | e in moves + rest
        ensures exists n, i :: n in listing && 0 <= i < |remove| && Globbed(n, remove[i]) && e.source == JoinPath(base, n)
      {
        if e in moves {
          var k :| 0 <= k < |moves| && moves[k] == e;
          assert e.source in globbed;
          var n :| n in listing && Globbed(n, remove[0]) && e.source == JoinPath(base, n);
        } else {
          var n, i :| n in left && 0 <= i < |remove| - 1 && Globbed(n, remove[1..][i]) && e.source == JoinPath(base, n);
          assert remove[1..][i] == remove[i + 1];
        }
      }
    }
  }

  /** Every listed file that the glob of some removed version matches is moved. */
  lemma {:induction false} MoveAllComplete(base: string, listing: seq<string>, remove: seq<string>, target: string)
    ensures forall n, i :: n in listing && 0 <= i < |remove| && Globbed(n, remove[i]) ==>
              Move(JoinPath(base, n), target) in MoveAll(base, listing, remove, target)
    decreases |remove|
  {
    if |remove| > 0 {
      var globbed := GlobContaining(base, listing, remove[0]);
      var left := Unglobbed(listing, remove[0]);
      var moves := MovesTo(globbed, target);
      var rest := MoveAll(base, left, remove[1..], target);
      MoveAllComplete(base, left, remove[1..], target);
      forall n, i | n in listing && 0 <= i < |remove| && Globbed(n, remove[i])
        ensures Move(JoinPath(base, n), target) in moves + rest
      {
        if Globbed(n, remove[0]) {
          var k :| 0 <= k < |globbed| && globbed[k] == JoinPath(base, n);
          assert moves[k] == Move(JoinPath(base, n), target);
        } else {
          assert i > 0 && n in left;
          assert remove[1..][i - 1] == remove[i];
        }
      }
    }
  }

  /** Moves that each keep their files apart, and share no file, keep them apart together. */
  lemma {:induction false} DistinctSourcesConcat(a: seq<Effect>, b: seq<Effect>)
    requires DistinctSources(a) && DistinctSources(b)
    requires forall e, f :: e in a && f in b && e.Move? && f.Move? ==> e.source != f.source
    ensures DistinctSources(a + b)
  {
    var all := a + b;
    forall i, j | 0 <= i < j < |all| && all[i].Move? && all[j].Move? ensures all[i].source != all[j].source {
      if j < |a| {
        assert all[i] == a[i] && all[j] == a[j];
      } else if i >= |a| {
        assert all[i] == b[i - |a|] && all[j] == b[j - |a|];
      } else {
        assert all[i] == a[i] && all[j] == b[j - |a|];
      }
    }
  }

  /** Moving different paths moves different files. */
  lemma {:induction false} MovesToDistinct(paths: seq<string>, target: string)
    requires Distinct(paths)
    ensures DistinctSources(MovesTo(paths, target))
  {
    var moves := MovesTo(paths, target);
    forall i, j | 0 <= i < j < |moves| && moves[i].Move? && moves[j].Move? ensures moves[i].source != moves[j].source {
      assert moves[i].source == paths[i] && moves[j].source == paths[j];
    }
  }

  /** A directory without repeated names has each of its files moved at most once. */
  lemma {:induction false} MoveAllOnce(base: string, listing: seq<string>, remove: seq<string>, target: string)
    requires Distinct(listing)
    ensures DistinctSources(MoveAll(base, listing, remove, target))
    decreases |remove|
  {
    if |remove| > 0 {
      var globbed := GlobContaining(base, listing, remove[0]);
      var left := Unglobbed(listing, remove[0]);
      var moves := MovesTo(globbed, target);
      var rest := MoveAll(base, left, remove[1..], target);
      GlobDistinct(base, listing, remove[0]);
      MovesToDistinct(globbed, target);
      MoveAllOnce(base, left, remove[1..], target);
      MoveAllSound(base, left, remove[1..], target);
      forall e, f | e in moves && f in rest && e.Move? && f.Move? ensures e.source != f.source {
        var k :| 0 <= k < |moves| && moves[k] == e;
        assert e.source == globbed[k] && globbed[k] in globbed;
        var n :| n in listing && Globbed(n, remove[0]) && e.source == JoinPath(base, n);
        var m, i :| m in left && 0 <= i < |remove| - 1 && Globbed(m, remove[1..][i]) && f.source == JoinPath(base, m);
        if e.source == f.source {
          JoinPathInjective(base, n, m);
        }
      }
      DistinctSourcesConcat(moves, rest);
    }
  }

  /** The three kernels `5.1`, `5.10` and `5.11` all contain `5.1`. */
  lemma {:induction false} ThreeKernelsMatch()
    ensures Globbed("vmlinuz-5.1", "5.1") && Globbed("vmlinuz-5.10", "5.1") && Globbed("vmlinuz-5.11", "5.1")
  {
    ContainsAt("vmlinuz-5.1", "5.1", 8);
    ContainsAt("vmlinuz-5.10", "5.1", 8);
    ContainsAt("vmlinuz-5.11", "5.1", 8);
  }

  /** The glob for `5.1` takes all three kernels, in listing order. */
  lemma {:induction false} ThreeKernelsGlobbed()
    ensures GlobContaining("/boot", ["vmlinuz-5.1", "vmlinuz-5.10", "vmlinuz-5.11"], "5.1")
            == ["/boot/vmlinuz-5.1", "/boot/vmlinuz-5.10", "/boot/vmlinuz-5.11"]
  {
    var base, a, b, c := "/boot", "vmlinuz-5.1", "vmlinuz-5.10", "vmlinuz-5.11";
    ThreeKernelsMatch();
    assert [a, b, c][1..] == [b, c] && [b, c][1..] == [c] && [c][1..] == [];
    assert JoinPath(base, a) == "/boot/vmlinuz-5.1";
    assert JoinPath(base, b) == "/boot/vmlinuz-5.10";
    assert JoinPath(base, c) == "/boot/vmlinuz-5.11";
    assert GlobContaining(base, [c], "5.1") == [JoinPath(base, c)];
    assert GlobContaining(base, [b, c], "5.1") == [JoinPath(base, b), JoinPath(base, c)];
  }

  /** After the glob for `5.1` has been moved away none of the three kernels is left. */
  lemma {:induction false} ThreeKernelsLeaveNothing()
    ensures Unglobbed(["vmlinuz-5.1", "vmlinuz-5.10", "vmlinuz-5.11"], "5.1") == []
  {
    var a, b, c := "vmlinuz-5.1", "vmlinuz-5.10", "vmlinuz-5.11";
    ThreeKernelsMatch();
    assert [a, b, c][1..] == [b, c] && [b, c][1..] == [c] && [c][1..] == [];
    assert Unglobbed([c], "5.1") == [];
    assert Unglobbed([b, c], "5.1") == [];
  }

  /**
   * Removing `5.1` and then `5.10`: the first glob takes all three kernels, so
   * the second finds nothing and every file is moved once.
   */
  lemma {:induction false} SecondGlobFindsMovedFilesGone()
    ensures MoveAll("/boot", ["vmlinuz-5.1", "vmlinuz-5.10", "vmlinuz-5.11"], ["5.1", "5.10"], "/boot/removed")
            == [Move("/boot/vmlinuz-5.1", "/boot/removed"), Move("/boot/vmlinuz-5.10", "/boot/removed"),
                Move("/boot/vmlinuz-5.11", "/boot/removed")]
  {
    var target := "/boot/removed";
    var paths := ["/boot/vmlinuz-5.1", "/boot/vmlinuz-5.10", "/boot/vmlinuz-5.11"];
    ThreeKernelsGlobbed();
    ThreeKernelsLeaveNothing();
    assert ["5.1", "5.10"][1..] == ["5.10"] && ["5.10"][1..] == [];
    assert MoveAll("/boot", [], ["5.10"], target) == [];
    assert MovesTo(paths, target) == [Move(paths[0], target), Move(paths[1], target), Move(paths[2], target)];
  }

  /** One move per path, in order. */
  function MovesTo(paths: seq<string>, target: string): (effects: seq<Effect>)
    ensures |effects| == |paths|
    ensures forall i :: 0 <= i < |paths| ==> effects[i] == Move(paths[i], target)
  {
    if |paths| == 0 then [] else [Move(paths[0], target)] + MovesTo(paths[1..], target)
  }

  /** Sequences with the same multiset have the same elements. */
  lemma SameElements(a: seq<string>, b: seq<string>)
    requires multiset(a) == multiset(b)
    ensures forall v :: v in a <==> v in b
  {
    forall v
      ensures v in a <==> v in b
    {
      assert v in a <==> multiset(a)[v] > 0;
      assert v in b <==> multiset(b)[v] > 0;
    }
  }

  /**
   * `remove = versions[0:max(0, n - keep)]` and `keep = set(versions) - set(remove)`:
   * the oldest versions go, and every version is either removed or kept, never both.
   */
  function SplitVersions(sorted: seq<string>, keepVersions: nat): (r: (seq<string>, set<string>))
    ensures |r.0| == RemoveCount(|sorted|, keepVersions) && r.0 <= sorted
    ensures forall v :: v in r.1 <==> v in sorted && v !in r.0
    ensures forall v :: v in sorted <==> v in r.0 || v in r.1
  {
    var remove := sorted[..RemoveCount(|sorted|, keepVersions)];
    (remove, set v | v in sorted && v !in remove)
  }

  /**
   * The file-system effects of one run: none in pretend mode; otherwise creating
   * `<base>/removed` first when it is missing, then moving into it exactly the
   * visible files whose names contain a removed version.
   */
  function CleanupEffects(base: string, listing: seq<string>, remove: seq<string>, pretend: bool,
                          removedExists: bool): (effects: seq<Effect>)
    ensures pretend ==> effects == []
    ensures !pretend ==> (MakeDirectory(JoinPath(base, "removed")) in effects <==> !removedExists)
    ensures !pretend && !removedExists ==> effects[0] == MakeDirectory(JoinPath(base, "removed"))
    ensures forall e :: e in effects && e.Move? ==>
              e.target == JoinPath(base, "removed")
              && exists i :: 0 <= i < |remove| && e.source in GlobContaining(base, listing, remove[i])
    ensures !pretend ==> forall i, p :: 0 <= i < |remove| && p in GlobContaining(base, listing, remove[i]) ==>
              Move(p, JoinPath(base, "removed")) in effects
    ensures Distinct(listing) ==> DistinctSources(effects)
  {
    var target := JoinPath(base, "removed");
    if pretend then []
    else
      var moves := MoveAll(base, listing, remove, target);
      MoveAllSound(base, listing, remove, target);
      MoveAllComplete(base, listing, remove, target);
      var made := if removedExists then [] else [MakeDirectory(target)];
      var effects := made + moves;
      assert forall e :: e in effects && e.Move? ==> e in moves;
      assert Distinct(listing) ==> DistinctSources(effects) by {
        if Distinct(listing) {
          MoveAllOnce(base, listing, remove, target);
          DistinctSourcesConcat(made, moves);
        }
      }
      effects
  }

  /**
   * `cleanup(base_dir, keep_versions, pretend, verbose)`: a negative count is an
   * assertion failure; otherwise the versions found are sorted, the oldest
   * `max(0, n - keep)` are removed and the rest kept.
   */
  function Cleanup(base: string, listing: seq<string>, keepVersions: int, pretend: bool, removedExists: bool)
    : (r: Result<Plan, CleanupError>)
    ensures r.Failure? <==> keepVersions < 0
    ensures r.Success? ==> SortedByKey(r.value.sorted)
    ensures r.Success? ==> multiset(r.value.sorted) == multiset(KernelVersions(base, listing))
    ensures r.Success? ==> |r.value.remove| == RemoveCount(|r.value.sorted|, keepVersions)
                           && r.value.remove <= r.value.sorted
    ensures r.Success? ==> forall v :: v in r.value.keep <==> v in r.value.sorted && v !in r.value.remove
    ensures r.Success? ==> forall v :: v in KernelVersions(base, listing) <==> v in r.value.remove || v in r.value.keep
    ensures r.Success? ==> r.value.effects == CleanupEffects(base, listing, r.value.remove, pretend, removedExists)
    ensures r.Success? && Distinct(listing) ==> DistinctSources(r.value.effects)
    ensures r.Success? && Distinct(listing) ==>
              |r.value.remove| == RemoveCount(|set n | n in listing && StartsWith(n, KernelPrefix)|, keepVersions)
  {
    if keepVersions < 0 then Failure(NegativeKeepVersions)
    else
      var found := KernelVersions(base, listing);
      var sorted := SortVersions(found);
      SameElements(sorted, found);
      assert |sorted| == |multiset(sorted)| == |multiset(found)| == |found|;
      var (remove, keep) := SplitVersions(sorted, keepVersions);
      Success(Plan(sorted, remove, keep, CleanupEffects(base, listing, remove, pretend, removedExists)))
  }

  /** Keeping at least as many versions as exist removes nothing and moves nothing. */
  lemma KeepingAllRemovesNothing(base: string, listing: seq<string>, keepVersions: int, pretend: bool)
    requires keepVersions >= |KernelVersions(base, listing)|
    ensures Cleanup(base, listing, keepVersions, pretend, true).value.remove == []
    ensures Cleanup(base, listing, keepVersions, pretend, true).value.effects == []
  {
    var sorted := Cleanup(base, listing, keepVersions, pretend, true).value.sorted;
    assert |sorted| == |multiset(sorted)| == |multiset(KernelVersions(base, listing))|;
  }
}
