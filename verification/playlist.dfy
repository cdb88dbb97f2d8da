/**
 * `m3u-to-cd-changer-dir.py`: copies the tracks of one or more playlists into a
 * target directory, naming each copy after a number handed out by a counter
 * shared by all playlists (`0001.mp3`, `0002.flac`, …), so that a CD changer
 * plays them in playlist order.
 *
 * Paths are modelled as pathlib's parsed form; the playlist files' texts and
 * the working directory are inputs, and the copies are returned as a list of
 * effects instead of being performed.
 */
module Playlist {
  import opened Wrappers
  import opened Text

  // ---------------------------------------------------------------------------
  // Counter
  // ---------------------------------------------------------------------------

  /** `Counter`: the value `get_next` hands out next. */
  datatype Counter = Counter(nextValue: int)

  /** `get_next`: the current value, and the counter moved on by one. */
  function GetNext(c: Counter): (r: (int, Counter))
    ensures r.1.nextValue == r.0 + 1
    ensures r.0 == c.nextValue
  {
    (c.nextValue, Counter(c.nextValue + 1))
  }

  // ---------------------------------------------------------------------------
  // Paths (POSIX `pathlib`)
  // ---------------------------------------------------------------------------

  /**
   * A parsed POSIX path: whether it starts at the root, and its components,
   * none of them empty or `.` (pathlib drops those when parsing).
   */
  datatype Path = Path(absolute: bool, parts: seq<string>)

  predicate WellFormed(p: Path) {
    forall i :: 0 <= i < |p.parts| ==> p.parts[i] != "" && p.parts[i] != "." && '/' !in p.parts[i]
  }

  /** The components of `s` between slashes, without empty and `.` components. */
  function Components(s: string): (parts: seq<string>)
    ensures WellFormed(Path(false, parts))
    decreases |s|
  {
    if |s| == 0 then []
    else
      var i := IndexOf(s, '/');
      var part := s[..i];
      var rest := if i == |s| then [] else Components(s[i + 1..]);
      if part == "" || part == "." then rest else [part] + rest
  }

  /** `pathlib.Path(s)`. */
  function ParsePath(s: string): (p: Path)
    ensures WellFormed(p)
    ensures p.absolute <==> |s| > 0 && s[0] == '/'
  {
    Path(|s| > 0 && s[0] == '/', Components(s))
  }

  /** `p.joinpath(q)`: an absolute `q` replaces `p`, a relative one is appended. */
  function JoinPath(p: Path, q: Path): (r: Path)
    requires WellFormed(p) && WellFormed(q)
    ensures WellFormed(r)
    ensures q.absolute ==> r == q
    ensures !q.absolute ==> r.absolute == p.absolute && |r.parts| == |p.parts| + |q.parts|
                            && r.parts[..|p.parts|] == p.parts && r.parts[|p.parts|..] == q.parts
  {
    if q.absolute then q else Path(p.absolute, p.parts + q.parts)
  }

  /** `p.parent`: the path without its last component (the root and `.` are their own parents). */
  function Parent(p: Path): (r: Path)
    requires WellFormed(p)
    ensures WellFormed(r)
    ensures r.absolute == p.absolute
    ensures |p.parts| > 0 ==> r.parts + [p.parts[|p.parts| - 1]] == p.parts
    ensures |p.parts| == 0 ==> r == p
  {
    if |p.parts| == 0 then p else Path(p.absolute, p.parts[..|p.parts| - 1])
  }

  /** `p.absolute()`: a relative path is placed under the working directory. */
  function Absolute(p: Path, cwd: Path): (r: Path)
    requires WellFormed(p) && WellFormed(cwd) && cwd.absolute
    ensures WellFormed(r) && r.absolute
    ensures p.absolute ==> r == p
  {
    if p.absolute then p else JoinPath(cwd, p)
  }

  /** `p.name`: the last component, or `""`. */
  function Name(p: Path): string {
    if |p.parts| == 0 then "" else p.parts[|p.parts| - 1]
  }

  /** `s.rfind('.')`. */
  function LastDot(s: string): (r: Option<nat>)
    ensures r.Some? ==> r.value < |s| && s[r.value] == '.' && '.' !in s[r.value + 1..]
    ensures r.None? ==> '.' !in s
  {
    if |s| == 0 then None
    else if s[|s| - 1] == '.' then Some(|s| - 1)
    else
      var r := LastDot(s[..|s| - 1]);
      assert s == s[..|s| - 1] + [s[|s| - 1]];
      r
  }

  /**
   * `p.suffix`: from the last dot of the name to its end, provided that dot is
   * neither the first nor the last character of the name; otherwise `""`.
   */
  function Suffix(p: Path): string {
    var name := Name(p);
    match LastDot(name)
    case None => ""
    case Some(i) => if 0 < i < |name| - 1 then name[i..] else ""
  }

  /**
   * A suffix is a dot and at least one more character, none of them a dot,
   * ending the name without being all of it; there is none exactly when the
   * name has no dot, or its last dot starts or ends it.
   */
  lemma SuffixForm(p: Path)
    ensures var r, name := Suffix(p), Name(p);
            r != "" ==> |r| >= 2 && r[0] == '.' && '.' !in r[1..] && |r| < |name| && name[|name| - |r|..] == r
    ensures var name := Name(p);
            Suffix(p) == "" <==> match LastDot(name) case None => true case Some(i) => i == 0 || i == |name| - 1
  {
  }

  // ---------------------------------------------------------------------------
  // Reading a playlist
  // ---------------------------------------------------------------------------

  /**
   * Text-mode reading with universal newlines: `"\r\n"` and a lone `'\r'` both
   * become `'\n'`.
   */
  function UniversalNewlines(text: string): (r: string)
    ensures '\r' !in r
    ensures '\r' !in text ==> r == text
    decreases |text|
  {
    if |text| == 0 then ""
    else if text[0] == '\r' then
      if |text| > 1 && text[1] == '\n' then "\n" + UniversalNewlines(text[2..])
      else "\n" + UniversalNewlines(text[1..])
    else [text[0]] + UniversalNewlines(text[1..])
  }

  /** A line `read_playlist` turns into a track: not empty and not a `#` comment. */
  predicate IsEntry(line: string) {
    line != "" && line[0] != '#'
  }

  /** The entry lines, in order. */
  function EntryLines(lines: seq<string>): (r: seq<string>)
    ensures |r| <= |lines|
    ensures forall l :: l in r ==> l in lines && IsEntry(l)
    ensures forall l :: l in lines && IsEntry(l) ==> l in r
  {
    if |lines| == 0 then []
    else if IsEntry(lines[0]) then [lines[0]] + EntryLines(lines[1..])
    else EntryLines(lines[1..])
  }

  /** Filtering works line by line: the entries of two blocks of lines are the entries of each, in order. */
  lemma {:induction false} EntryLinesAppend(a: seq<string>, b: seq<string>)
    ensures EntryLines(a + b) == EntryLines(a) + EntryLines(b)
    decreases |a|
  {
    if |a| > 0 {
      assert (a + b)[1..] == a[1..] + b;
      EntryLinesAppend(a[1..], b);
    } else {
      assert a + b == b;
    }
  }

  /** How one entry line is resolved: absolute as written, relative below the playlist's directory. */
  function ResolveEntry(line: string, playlist: Path, cwd: Path): (r: Path)
    requires WellFormed(playlist) && WellFormed(cwd) && cwd.absolute
    ensures WellFormed(r) && r.absolute
    ensures ParsePath(line).absolute ==> r == ParsePath(line)
  {
    var entry := ParsePath(line);
    if entry.absolute then entry else Absolute(JoinPath(Parent(playlist), entry), cwd)
  }

  /**
   * A relative entry names a file in the playlist's directory, and a relative
   * playlist's directory is taken below the working directory.
   */
  lemma {:induction false} RelativeEntryResolution(line: string, playlist: Path, cwd: Path)
    requires WellFormed(playlist) && WellFormed(cwd) && cwd.absolute
    requires !ParsePath(line).absolute
    ensures playlist.absolute ==>
              ResolveEntry(line, playlist, cwd).parts == Parent(playlist).parts + ParsePath(line).parts
    ensures !playlist.absolute ==>
              ResolveEntry(line, playlist, cwd).parts == cwd.parts + Parent(playlist).parts + ParsePath(line).parts
  {
    var parent, entry := Parent(playlist), ParsePath(line);
    var joined := JoinPath(parent, entry);
    assert joined.parts == parent.parts + entry.parts;
  }

  /** `read_playlist(playlist)`, given the file's text and the working directory. */
  function ReadPlaylist(playlist: Path, text: string, cwd: Path): (tracks: seq<Path>)
    requires WellFormed(playlist) && WellFormed(cwd) && cwd.absolute
    ensures var entries := EntryLines(SplitLines(UniversalNewlines(text)));
            && |tracks| == |entries|
            && forall i :: 0 <= i < |tracks| ==> tracks[i] == ResolveEntry(entries[i], playlist, cwd)
    ensures forall i :: 0 <= i < |tracks| ==> WellFormed(tracks[i]) && tracks[i].absolute
  {
    var entries := EntryLines(SplitLines(UniversalNewlines(text)));
    seq(|entries|, i requires 0 <= i < |entries| => ResolveEntry(entries[i], playlist, cwd))
  }

  /** A comment or blank line adds no track, wherever it is. */
  lemma CommentsAddNoTracks(before: seq<string>, comment: string, after: seq<string>)
    requires !IsEntry(comment)
    ensures EntryLines(before + [comment] + after) == EntryLines(before + after)
  {
    EntryLinesAppend(before + [comment], after);
    EntryLinesAppend(before, [comment]);
    EntryLinesAppend(before, after);
    assert EntryLines([comment]) == [];
  }

  /** An entry line adds exactly one track, in its place. */
  lemma EntryAddsOneTrack(before: seq<string>, entry: string, after: seq<string>)
    requires IsEntry(entry)
    ensures EntryLines(before + [entry] + after) == EntryLines(before) + [entry] + EntryLines(after)
  {
    EntryLinesAppend(before + [entry], after);
    EntryLinesAppend(before, [entry]);
    assert EntryLines([entry]) == [entry];
  }

  // ---------------------------------------------------------------------------
  // Numbering and copying
  // ---------------------------------------------------------------------------

  /** `k` zeros (none for `k <= 0`). */
  function Zeros(k: int): (z: string)
    ensures |z| == if k <= 0 then 0 else k
    ensures forall i :: 0 <= i < |z| ==> z[i] == '0'
    decreases k
  {
    if k <= 0 then "" else "0" + Zeros(k - 1)
  }

  /** A run of zeros is worth zero. */
  lemma {:induction false} ZerosValue(k: int)
    ensures AllDigitsBelow(Zeros(k), 10)
    ensures NumeralValue(Zeros(k), 10) == 0
    decreases k
  {
    if k > 0 {
      var z := Zeros(k);
      assert z[..|z| - 1] == Zeros(k - 1);
      ZerosValue(k - 1);
    }
  }

  /** Leading zeros do not change the value of a decimal numeral. */
  lemma {:induction false} LeadingZeros(z: string, s: string)
    requires AllDigitsBelow(z, 10) && NumeralValue(z, 10) == 0
    requires AllDigitsBelow(s, 10)
    ensures AllDigitsBelow(z + s, 10)
    ensures NumeralValue(z + s, 10) == NumeralValue(s, 10)
    decreases |s|
  {
    if |s| > 0 {
      var init := s[..|s| - 1];
      assert (z + s)[..|z + s| - 1] == z + init;
      LeadingZeros(z, init);
    } else {
      assert z + s == z;
    }
  }

  /** `digits` with zeros in front up to `width` characters. */
  function PadDigits(digits: string, width: int): string {
    Zeros(width - |digits|) + digits
  }

  /** Padding keeps a decimal string decimal and keeps its value; past the width it adds nothing. */
  lemma PadDigitsForm(digits: string, width: int)
    requires IsDecimal(digits)
    ensures IsDecimal(PadDigits(digits, width))
    ensures NumeralValue(PadDigits(digits, width), 10) == NumeralValue(digits, 10)
    ensures |PadDigits(digits, width)| == if |digits| < width then width else |digits|
    ensures |digits| >= width ==> PadDigits(digits, width) == digits
  {
    var z := Zeros(width - |digits|);
    ZerosValue(width - |digits|);
    DecimalDigitsBelowTen(digits);
    LeadingZeros(z, digits);
    if |digits| >= width {
      assert z == "";
    }
  }

  /**
   * `f"{n:04}"`: the decimal digits of `n` zero-padded to at least four
   * characters; for a negative `n` the minus sign counts towards the four.
   */
  function Pad4(n: int): (s: string)
    ensures |s| >= 4
  {
    if n >= 0 then PadDigits(Numeral(n, 10), 4) else "-" + PadDigits(Numeral(-n, 10), 3)
  }

  /**
   * The padded form reads back as `n`: all digits for `n >= 0`, a minus sign
   * before the digits of `-n` otherwise; it is longer than four characters
   * only when `str(n)` is, and then it is `str(n)` itself.
   */
  lemma Pad4Form(n: int)
    ensures n >= 0 ==> IsDecimal(Pad4(n)) && NumeralValue(Pad4(n), 10) == n
    ensures n < 0 ==> Pad4(n)[0] == '-' && IsDecimal(Pad4(n)[1..]) && NumeralValue(Pad4(n)[1..], 10) == -n
    ensures |Pad4(n)| > 4 ==> Pad4(n) == IntToDecimal(n)
  {
    var m := if n >= 0 then n else -n;
    NumeralForm(m, 10);
    NumeralRoundTrip(m, 10);
    PadDigitsForm(Numeral(m, 10), if n >= 0 then 4 else 3);
    if n < 0 {
      assert Pad4(n)[1..] == PadDigits(Numeral(m, 10), 3);
    }
  }

  /** One copy `process_playlist` performs (`shutil.copy(source, target)`). */
  datatype Copy = Copy(source: Path, target: Path)

  /** A track and the number it was given. */
  datatype Assignment = Assignment(number: int, source: Path)

  /** `target_dir / (f"{number:04}" + source.suffix)`. */
  function TargetPath(targetDir: Path, number: int, source: Path): Path {
    Path(targetDir.absolute, targetDir.parts + [Pad4(number) + Suffix(source)])
  }

  /** Numbers each track in order with the counter's next values. */
  function AssignNumbers(tracks: seq<Path>, c: Counter): (r: (seq<Assignment>, Counter))
    ensures |r.0| == |tracks|
    ensures r.1.nextValue == c.nextValue + |tracks|
    ensures forall i :: 0 <= i < |tracks| ==> r.0[i] == Assignment(c.nextValue + i, tracks[i])
  {
    if |tracks| == 0 then ([], c)
    else
      var next := GetNext(c);
      var tail := AssignNumbers(tracks[1..], next.1);
      var all := [Assignment(next.0, tracks[0])] + tail.0;
      assert forall i :: 1 <= i < |tracks| ==> all[i] == tail.0[i - 1];
      (all, tail.1)
  }

  /** The copies a list of assignments performs: none in pretend mode. */
  function Copies(numbered: seq<Assignment>, targetDir: Path, pretend: bool): (r: seq<Copy>)
    ensures pretend ==> r == []
    ensures !pretend ==> |r| == |numbered|
    ensures forall i :: 0 <= i < |r| ==>
              r[i].source == numbered[i].source && r[i].target == TargetPath(targetDir, numbered[i].number, numbered[i].source)
  {
    if pretend then []
    else seq(|numbered|, i requires 0 <= i < |numbered| =>
               Copy(numbered[i].source, TargetPath(targetDir, numbered[i].number, numbered[i].source)))
  }

  /** One playlist to process: its path and the text of the file. */
  datatype PlaylistFile = PlaylistFile(path: Path, text: string)

  /**
   * `main`'s loop over the playlists: one counter, created from `--counter`, is
   * passed to every `process_playlist` call, so numbering continues from one
   * playlist to the next.
   */
  function ProcessAll(playlists: seq<PlaylistFile>, c: Counter, cwd: Path)
    : (r: (seq<Assignment>, Counter))
    requires WellFormed(cwd) && cwd.absolute
    requires forall i :: 0 <= i < |playlists| ==> WellFormed(playlists[i].path)
    ensures r.1.nextValue == c.nextValue + |r.0|
    ensures forall i :: 0 <= i < |r.0| ==> r.0[i].number == c.nextValue + i
    decreases |playlists|
  {
    if |playlists| == 0 then ([], c)
    else
      var tracks := ReadPlaylist(playlists[0].path, playlists[0].text, cwd);
      var (first, c1) := AssignNumbers(tracks, c);
      var (rest, c2) := ProcessAll(playlists[1..], c1, cwd);
      var all := first + rest;
      assert forall i :: |first| <= i < |all| ==> all[i] == rest[i - |first|];
      (all, c2)
  }

  /** The tracks of all playlists, one after another. */
  function AllTracks(playlists: seq<PlaylistFile>, cwd: Path): (tracks: seq<Path>)
    requires WellFormed(cwd) && cwd.absolute
    requires forall i :: 0 <= i < |playlists| ==> WellFormed(playlists[i].path)
    decreases |playlists|
  {
    if |playlists| == 0 then []
    else ReadPlaylist(playlists[0].path, playlists[0].text, cwd) + AllTracks(playlists[1..], cwd)
  }

  /** Every track of every playlist is copied once, in playlist order. */
  lemma {:induction false} ProcessAllCopiesEveryTrack(playlists: seq<PlaylistFile>, c: Counter, cwd: Path)
    requires WellFormed(cwd) && cwd.absolute
    requires forall i :: 0 <= i < |playlists| ==> WellFormed(playlists[i].path)
    ensures var numbered := ProcessAll(playlists, c, cwd).0;
            && |numbered| == |AllTracks(playlists, cwd)|
            && forall i :: 0 <= i < |numbered| ==> numbered[i].source == AllTracks(playlists, cwd)[i]
    decreases |playlists|
  {
    if |playlists| > 0 {
      var tracks := ReadPlaylist(playlists[0].path, playlists[0].text, cwd);
      var (first, c1) := AssignNumbers(tracks, c);
      ProcessAllCopiesEveryTrack(playlists[1..], c1, cwd);
    }
  }

  /** `main` with `--pretend`: the numbering is computed and logged, but nothing is copied. */
  function Run(playlists: seq<PlaylistFile>, targetDir: Path, initial: int, pretend: bool, cwd: Path)
    : (r: (seq<Assignment>, seq<Copy>))
    requires WellFormed(targetDir) && WellFormed(cwd) && cwd.absolute
    requires forall i :: 0 <= i < |playlists| ==> WellFormed(playlists[i].path)
    ensures pretend ==> r.1 == []
    ensures !pretend ==> |r.1| == |r.0|
    ensures forall i :: 0 <= i < |r.0| ==> r.0[i].number == initial + i
    ensures forall i :: 0 <= i < |r.1| ==>
              r.1[i].source == r.0[i].source && r.1[i].target == TargetPath(targetDir, r.0[i].number, r.0[i].source)
  {
    var numbered := ProcessAll(playlists, Counter(initial), cwd).0;
    (numbered, Copies(numbered, targetDir, pretend))
  }

  // ---------------------------------------------------------------------------
  // Distinct target names
  // ---------------------------------------------------------------------------

  /** Length of the leading run of ASCII digits. */
  function DigitRun(s: string): (n: nat)
    ensures n <= |s|
  {
    if |s| == 0 || !IsAsciiDigit(s[0]) then 0 else 1 + DigitRun(s[1..])
  }

  /** Digits followed by nothing or by a dot: the digits are the leading run. */
  lemma {:induction false} DigitRunBeforeSuffix(digits: string, suffix: string)
    requires forall k :: 0 <= k < |digits| ==> IsAsciiDigit(digits[k])
    requires suffix == "" || suffix[0] == '.'
    ensures DigitRun(digits + suffix) == |digits|
    decreases |digits|
  {
    if |digits| > 0 {
      assert (digits + suffix)[1..] == digits[1..] + suffix;
      DigitRunBeforeSuffix(digits[1..], suffix);
    } else {
      assert digits + suffix == suffix;
    }
  }

  /** Two digit strings, each followed by nothing or by a dot, are equal when the whole texts are. */
  lemma {:induction false} DigitsBeforeSuffixEqual(a: string, b: string, sa: string, sb: string)
    requires forall k :: 0 <= k < |a| ==> IsAsciiDigit(a[k])
    requires forall k :: 0 <= k < |b| ==> IsAsciiDigit(b[k])
    requires sa == "" || sa[0] == '.'
    requires sb == "" || sb[0] == '.'
    requires a + sa == b + sb
    ensures a == b
  {
    DigitRunBeforeSuffix(a, sa);
    DigitRunBeforeSuffix(b, sb);
    var w := a + sa;
    assert a == w[..|a|];
  }

  /** Texts that are one sign character before digits, followed by suffixes, have equal digits when the whole texts are equal. */
  lemma {:induction false} SignedDigitsBeforeSuffixEqual(a: string, b: string, sa: string, sb: string)
    requires |a| > 0 && |b| > 0
    requires forall k :: 0 <= k < |a[1..]| ==> IsAsciiDigit(a[1..][k])
    requires forall k :: 0 <= k < |b[1..]| ==> IsAsciiDigit(b[1..][k])
    requires sa == "" || sa[0] == '.'
    requires sb == "" || sb[0] == '.'
    requires a + sa == b + sb
    ensures a[1..] == b[1..]
  {
    assert (a + sa)[1..] == a[1..] + sa;
    assert (b + sb)[1..] == b[1..] + sb;
    DigitsBeforeSuffixEqual(a[1..], b[1..], sa, sb);
  }

  /** The padded form of a non-negative number is all digits. */
  lemma {:induction false} Pad4AllDigits(n: nat)
    ensures forall k :: 0 <= k < |Pad4(n)| ==> IsAsciiDigit(Pad4(n)[k])
  {
    Pad4Form(n);
  }

  /** The padded form of a negative number is a minus sign before digits. */
  lemma {:induction false} Pad4NegativeDigits(n: int)
    requires n < 0
    ensures Pad4(n)[0] == '-'
    ensures forall k :: 0 <= k < |Pad4(n)[1..]| ==> IsAsciiDigit(Pad4(n)[1..][k])
    ensures NumeralValue(Pad4(n)[1..], 10) == -n
  {
    Pad4Form(n);
  }

  /** A negative padded name never equals a non-negative one: one starts with '-', the other with a digit. */
  lemma {:induction false} SignedNamesDiffer(m: int, n: nat, sm: string, sn: string)
    requires m < 0
    ensures Pad4(m) + sm != Pad4(n) + sn
  {
    Pad4NegativeDigits(m);
    Pad4AllDigits(n);
    assert (Pad4(m) + sm)[0] == Pad4(m)[0];
    assert (Pad4(n) + sn)[0] == Pad4(n)[0];
  }

  /** Two negative padded names followed by suffixes agree only for equal numbers. */
  lemma {:induction false} NegativeNamesSplit(m: int, n: int, sm: string, sn: string)
    requires m < 0 && n < 0
    requires sm == "" || sm[0] == '.'
    requires sn == "" || sn[0] == '.'
    requires Pad4(m) + sm == Pad4(n) + sn
    ensures m == n
  {
    Pad4NegativeDigits(m);
    Pad4NegativeDigits(n);
    SignedDigitsBeforeSuffixEqual(Pad4(m), Pad4(n), sm, sn);
  }

  /** Two non-negative padded names followed by suffixes agree only for equal numbers. */
  lemma {:induction false} NonNegativeNamesSplit(m: nat, n: nat, sm: string, sn: string)
    requires sm == "" || sm[0] == '.'
    requires sn == "" || sn[0] == '.'
    requires Pad4(m) + sm == Pad4(n) + sn
    ensures m == n
  {
    Pad4AllDigits(m);
    Pad4AllDigits(n);
    DigitsBeforeSuffixEqual(Pad4(m), Pad4(n), sm, sn);
    Pad4Form(m);
    Pad4Form(n);
  }

  /**
   * A padded number followed by a suffix determines the number: the sign tells
   * negative from non-negative, and the digit run before the suffix gives the value.
   */
  lemma {:induction false} PaddedNameSplits(m: int, n: int, sm: string, sn: string)
    requires sm == "" || sm[0] == '.'
    requires sn == "" || sn[0] == '.'
    requires Pad4(m) + sm == Pad4(n) + sn
    ensures m == n
  {
    if m >= 0 && n >= 0 {
      NonNegativeNamesSplit(m, n, sm, sn);
    } else if m < 0 && n < 0 {
      NegativeNamesSplit(m, n, sm, sn);
    } else if m < 0 {
      SignedNamesDiffer(m, n, sm, sn);
    } else {
      SignedNamesDiffer(n, m, sn, sm);
    }
  }

  /** Distinct numbers, of either sign, have distinct padded forms. */
  lemma {:induction false} Pad4Injective(m: int, n: int)
    requires Pad4(m) == Pad4(n)
    ensures m == n
  {
    assert Pad4(m) + "" == Pad4(n) + "";
    PaddedNameSplits(m, n, "", "");
  }

  /**
   * Different numbers give different targets, whatever the
   * sources: a padded number followed by a suffix determines the number.
   */
  lemma {:induction false} DistinctNumbersDistinctTargets(targetDir: Path, m: int, n: int, a: Path, b: Path)
    requires m != n
    ensures TargetPath(targetDir, m, a) != TargetPath(targetDir, n, b)
  {
    if TargetPath(targetDir, m, a) == TargetPath(targetDir, n, b) {
      var k := |targetDir.parts|;
      assert TargetPath(targetDir, m, a).parts[k] == Pad4(m) + Suffix(a);
      assert TargetPath(targetDir, n, b).parts[k] == Pad4(n) + Suffix(b);
      SuffixForm(a);
      SuffixForm(b);
      PaddedNameSplits(m, n, Suffix(a), Suffix(b));
    }
  }

  /** Copies numbered consecutively never share a target. */
  lemma {:induction false} ConsecutiveTargetsDistinct(copies: seq<Copy>, numbered: seq<Assignment>, targetDir: Path,
                                                      initial: int)
    requires |copies| <= |numbered|
    requires forall i :: 0 <= i < |numbered| ==> numbered[i].number == initial + i
    requires forall i :: 0 <= i < |copies| ==>
               copies[i].target == TargetPath(targetDir, numbered[i].number, numbered[i].source)
    ensures forall i, j :: 0 <= i < j < |copies| ==> copies[i].target != copies[j].target
  {
    forall i, j | 0 <= i < j < |copies| ensures copies[i].target != copies[j].target {
      var x, y := numbered[i], numbered[j];
      DistinctNumbersDistinctTargets(targetDir, x.number, y.number, x.source, y.source);
    }
  }

  /** Whatever the initial value, no two copies of a run share a target. */
  lemma {:induction false} DistinctTargets(playlists: seq<PlaylistFile>, targetDir: Path, initial: int, pretend: bool, cwd: Path)
    requires WellFormed(targetDir) && WellFormed(cwd) && cwd.absolute
    requires forall k :: 0 <= k < |playlists| ==> WellFormed(playlists[k].path)
    ensures var copies := Run(playlists, targetDir, initial, pretend, cwd).1;
            forall i, j :: 0 <= i < j < |copies| ==> copies[i].target != copies[j].target
  {
    var (numbered, copies) := Run(playlists, targetDir, initial, pretend, cwd);
    ConsecutiveTargetsDistinct(copies, numbered, targetDir, initial);
  }
}
