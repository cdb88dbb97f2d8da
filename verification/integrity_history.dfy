/**
 * The integrity checker's history file: a header line
 * `integrity history version 1`, then one line per file
 * `<sha256> <mtime> <crc32> <relative path>`, where the CRC-32 is taken over the
 * SHA-256 text, the modification-time text and the path, concatenated. It guards
 * each entry against accidental edits of the history file itself.
 *
 * `zlib.crc32` is a parameter `crc` (a function from the text to its checksum);
 * the hexadecimal formatting around it is modelled.
 */
module IntegrityHistory {
  import opened Wrappers
  import opened Text

  /** `FileInfo`: hash, modification time in nanoseconds, CRC of the entry. */
  datatype FileInfo = FileInfo(sha256: string, modificationTime: int, crc32: string)

  /** `FileInfo()`, stored for a line that is not an entry at all. */
  const EmptyInfo: FileInfo := FileInfo("", 0, "")

  /** `HistoryFile`: the valid entries, and the entries found corrupted while reading. */
  datatype HistoryFile = HistoryFile(files: map<string, FileInfo>, corrupted: map<string, FileInfo>)

  const EmptyHistory: HistoryFile := HistoryFile(map[], map[])

  /** The two `IOError`s of `history_file_read`. */
  datatype ReadError = NotAHistoryFile | UnsupportedVersion(version: nat)

  /** The `MemoryError` of `history_file_write`: an entry whose CRC does not match. */
  datatype WriteError = CorruptedValueInMemory(path: string)

  const HeaderPrefix: string := "integrity history version "
  const HeaderLine: string := "integrity history version 1"

  // ---------------------------------------------------------------------------
  // Checksums
  // ---------------------------------------------------------------------------

  /** `crc32_hex`: the checksum in lower-case hexadecimal, without `0x` or leading zeros. */
  function Crc32Hex(crc: string -> nat, data: string): string {
    Numeral(crc(data), 16)
  }

  /** A checksum text is one non-empty word with no upper-case letters. */
  lemma Crc32HexForm(crc: string -> nat, data: string)
    ensures |Crc32Hex(crc, data)| > 0 && NoSpace(Crc32Hex(crc, data)) && '\n' !in Crc32Hex(crc, data)
    ensures Lower(Crc32Hex(crc, data)) == Crc32Hex(crc, data)
  {
    NumeralForm(crc(data), 16);
    LowerOfLowerCase(Crc32Hex(crc, data));
  }

  /** `crc32_hex_from_file_info`: the CRC of `sha256 + mtime-text + path`. */
  function EntryCrc(crc: string -> nat, path: string, sha256: string, mtimeText: string): string {
    Crc32Hex(crc, sha256 + mtimeText + path)
  }

  /** The entry's stored CRC is the one recomputed from its fields, as `history_file_write` demands. */
  predicate Consistent(crc: string -> nat, path: string, info: FileInfo) {
    info.crc32 == EntryCrc(crc, path, info.sha256, IntToDecimal(info.modificationTime))
  }

  // ---------------------------------------------------------------------------
  // Entry lines
  // ---------------------------------------------------------------------------

  /** Length of the run of non-whitespace characters at the start of `s`. */
  function FieldLength(s: string): (n: nat)
    ensures n <= |s|
    ensures forall k :: 0 <= k < n ==> !IsSpace(s[k])
    ensures n < |s| ==> IsSpace(s[n])
  {
    if |s| == 0 || IsSpace(s[0]) then 0 else 1 + FieldLength(s[1..])
  }

  /** Length of the run of whitespace characters at the start of `s`. */
  function GapLength(s: string): (n: nat)
    ensures n <= |s|
    ensures n < |s| ==> !IsSpace(s[n])
  {
    if |s| == 0 || !IsSpace(s[0]) then 0 else 1 + GapLength(s[1..])
  }

  /** A greedy `\S+` (or nothing): the leading non-whitespace run and what follows it. */
  function TakeField(s: string): (r: (string, string))
    ensures NoSpace(r.0)
    ensures |r.1| > 0 ==> IsSpace(r.1[0])
  {
    var n := FieldLength(s);
    (s[..n], s[n..])
  }

  /** A greedy `\s+` (or nothing): how many whitespace characters lead, and what follows them. */
  function SkipGap(s: string): (r: (nat, string))
    ensures r.0 <= |s| && r.1 == s[r.0..]
    ensures |r.1| > 0 ==> !IsSpace(r.1[0])
  {
    var n := GapLength(s);
    (n, s[n..])
  }

  /** `(\S+)\s+`: a non-empty field, a non-empty gap, and the text after the gap. */
  function FieldAndGap(s: string): (r: Option<(string, string)>)
    ensures r.Some? ==> |r.value.0| > 0 && NoSpace(r.value.0)
  {
    var f := TakeField(s);
    var g := SkipGap(f.1);
    if |f.0| == 0 || g.0 == 0 then None else Some((f.0, g.1))
  }

  /**
   * `\s+(.+)` matched to the end of the text: the path after the gap. When the
   * gap runs to the end, the regex backtracks and the path is the gap's last
   * character. `.` does not match a newline.
   */
  function GapAndPath(s: string): (r: Option<string>)
    ensures r.Some? ==> |r.value| > 0 && '\n' !in r.value
  {
    var g := SkipGap(s);
    if g.0 == 0 then None
    else if |g.1| > 0 then
      if '\n' in g.1 then None else Some(g.1)
    else if g.0 >= 2 && s[g.0 - 1] != '\n' then Some([s[g.0 - 1]])
    else None
  }

  /** The four groups of the entry pattern, as text. */
  datatype Entry = Entry(sha256: string, mtime: string, crc32: string, path: string)

  /** `re.fullmatch(r'(\S+)\s+(\S+)\s+(\S+)\s+(.+)', line)`, field by field. */
  function ParseEntry(line: string): (r: Option<Entry>)
    ensures r.Some? ==> |r.value.sha256| > 0 && NoSpace(r.value.sha256)
    ensures r.Some? ==> |r.value.mtime| > 0 && NoSpace(r.value.mtime)
    ensures r.Some? ==> |r.value.crc32| > 0 && NoSpace(r.value.crc32)
    ensures r.Some? ==> |r.value.path| > 0 && '\n' !in r.value.path
  {
    var first :- FieldAndGap(line);
    var second :- FieldAndGap(first.1);
    var third := TakeField(second.1);
    if |third.0| == 0 then None
    else
      var path :- GapAndPath(third.1);
      Some(Entry(first.0, second.0, third.0, path))
  }

  /** The line `history_file_write` emits for one entry: the fields joined by single spaces. */
  function FormatEntry(e: Entry): string {
    e.sha256 + (" " + (e.mtime + (" " + (e.crc32 + (" " + e.path)))))
  }

  /** An entry whose line reads back as itself. */
  predicate Parsable(e: Entry) {
    && |e.sha256| > 0 && NoSpace(e.sha256)
    && |e.mtime| > 0 && NoSpace(e.mtime)
    && |e.crc32| > 0 && NoSpace(e.crc32)
    && |e.path| > 0 && '\n' !in e.path && !IsSpace(e.path[0])
  }

  /** A non-empty non-whitespace field followed by a single space and then a non-space. */
  lemma FieldThenSpace(field: string, rest: string)
    requires |field| > 0 && NoSpace(field) && |rest| > 0 && !IsSpace(rest[0])
    ensures TakeField(field + (" " + rest)) == (field, " " + rest)
    ensures SkipGap(" " + rest) == (1, rest)
    ensures FieldAndGap(field + (" " + rest)) == Some((field, rest))
  {
    var s := field + (" " + rest);
    assert s[|field|] == ' ';
    assert FieldLength(s) == |field|;
    assert s[..|field|] == field;
    assert (" " + rest)[1..] == rest;
    assert GapLength(rest) == 0;
    assert GapLength(" " + rest) == 1 + GapLength(rest);
  }

  /** Parsing a formatted entry gives back its four fields. */
  lemma ParseFormatEntry(e: Entry)
    requires Parsable(e)
    ensures ParseEntry(FormatEntry(e)) == Some(e)
  {
    FieldThenSpace(e.crc32, e.path);
    FieldThenSpace(e.mtime, e.crc32 + (" " + e.path));
    FieldThenSpace(e.sha256, e.mtime + (" " + (e.crc32 + (" " + e.path))));
    assert GapAndPath(" " + e.path) == Some(e.path);
  }

  // ---------------------------------------------------------------------------
  // Reading
  // ---------------------------------------------------------------------------

  /** `FileInfo(sha256, int(mtime) if mtime.isnumeric() else 0, crc32.lower())`. */
  function EntryInfo(e: Entry): FileInfo {
    var mtime := if IsDecimal(e.mtime) then DecimalDigitsBelowTen(e.mtime); NumeralValue(e.mtime, 10) else 0;
    FileInfo(e.sha256, mtime, Lower(e.crc32))
  }

  /** The entry's lower-cased CRC matches the recomputed one and its time is a number. */
  predicate EntryValid(crc: string -> nat, e: Entry) {
    Lower(e.crc32) == EntryCrc(crc, e.path, e.sha256, e.mtime) && IsDecimal(e.mtime)
  }

  /**
   * One line of the history body. A blank line is skipped; a line that is not an
   * entry is recorded as corrupted under its own text; an entry with a bad CRC or
   * time, or for a path already seen, is recorded as corrupted under its path;
   * only the first valid entry for a path enters `files`, and it is never replaced.
   */
  function ReadEntry(crc: string -> nat, h: HistoryFile, line: string): (r: HistoryFile)
    ensures line == "" ==> r == h
    ensures forall p :: p in h.files ==> p in r.files && r.files[p] == h.files[p]
    ensures forall p :: p in h.corrupted ==> p in r.corrupted
  {
    if line == "" then h
    else
      match ParseEntry(line)
      case None => h.(corrupted := h.corrupted[line := EmptyInfo])
      case Some(e) =>
        var info := EntryInfo(e);
        if Lower(e.crc32) != EntryCrc(crc, e.path, e.sha256, e.mtime) || !IsDecimal(e.mtime) then
          h.(corrupted := h.corrupted[e.path := info])
        else if e.path in h.files then
          h.(corrupted := h.corrupted[e.path := info])
        else
          h.(files := h.files[e.path := info])
  }

  /** The body lines read in order; an entry accepted into `files` stays there unchanged. */
  function ReadLines(crc: string -> nat, h: HistoryFile, lines: seq<string>): (r: HistoryFile)
    ensures forall p :: p in h.files ==> p in r.files && r.files[p] == h.files[p]
    ensures forall p :: p in h.corrupted ==> p in r.corrupted
    decreases |lines|
  {
    if |lines| == 0 then h else ReadLines(crc, ReadEntry(crc, h, lines[0]), lines[1..])
  }

  /** What one body line is: blank, not an entry, an entry that fails its checks, or a valid entry. */
  datatype LineKind = Blank | NotEntry(text: string) | Rejected(entry: Entry) | Valid(entry: Entry)

  /** The checks `history_file_read` makes of one line, before it looks at the paths read so far. */
  function Classify(crc: string -> nat, line: string): (k: LineKind)
    ensures k == Blank <==> line == ""
    ensures k.NotEntry? <==> line != "" && ParseEntry(line).None?
    ensures k.NotEntry? ==> k.text == line
    ensures k.Rejected? || k.Valid? ==> line != "" && ParseEntry(line) == Some(k.entry)
    ensures k.Valid? <==> line != "" && ParseEntry(line).Some? && EntryValid(crc, ParseEntry(line).value)
  {
    if line == "" then Blank
    else match ParseEntry(line)
      case None => NotEntry(line)
      case Some(e) => if EntryValid(crc, e) then Valid(e) else Rejected(e)
  }

  /** The classification of every line, in order. */
  function Kinds(crc: string -> nat, lines: seq<string>): (ks: seq<LineKind>)
    ensures |ks| == |lines|
  {
    if |lines| == 0 then [] else [Classify(crc, lines[0])] + Kinds(crc, lines[1..])
  }

  /** The `i`-th classification is that of the `i`-th line. */
  lemma {:induction false} KindsAt(crc: string -> nat, lines: seq<string>, i: nat)
    requires i < |lines|
    ensures Kinds(crc, lines)[i] == Classify(crc, lines[i])
    decreases |lines|
  {
    if i > 0 {
      KindsAt(crc, lines[1..], i - 1);
    }
  }

  /** How a classified line changes what has been read: only a valid entry for a new path is accepted. */
  function Record(h: HistoryFile, k: LineKind): HistoryFile {
    match k
    case Blank => h
    case NotEntry(text) => h.(corrupted := h.corrupted[text := EmptyInfo])
    case Rejected(e) => h.(corrupted := h.corrupted[e.path := EntryInfo(e)])
    case Valid(e) =>
      if e.path in h.files then h.(corrupted := h.corrupted[e.path := EntryInfo(e)])
      else h.(files := h.files[e.path := EntryInfo(e)])
  }

  /** Classified lines recorded in order. */
  function RecordAll(h: HistoryFile, ks: seq<LineKind>): HistoryFile
    decreases |ks|
  {
    if |ks| == 0 then h else RecordAll(Record(h, ks[0]), ks[1..])
  }

  /** Reading a line is classifying it and recording the classification. */
  lemma {:induction false} ReadLinesClassified(crc: string -> nat, h: HistoryFile, lines: seq<string>)
    ensures ReadLines(crc, h, lines) == RecordAll(h, Kinds(crc, lines))
    decreases |lines|
  {
    if |lines| > 0 {
      var k := Classify(crc, lines[0]);
      assert ReadEntry(crc, h, lines[0]) == Record(h, k);
      assert Kinds(crc, lines)[1..] == Kinds(crc, lines[1..]);
      ReadLinesClassified(crc, Record(h, k), lines[1..]);
    }
  }

  /** The index of the first valid entry for `p` (see `FirstValidIsFirst`). */
  function FirstValid(ks: seq<LineKind>, p: string): (r: Option<nat>)
    ensures r.Some? ==> r.value < |ks| && ks[r.value].Valid? && ks[r.value].entry.path == p
    decreases |ks|
  {
    if |ks| == 0 then None
    else if ks[0].Valid? && ks[0].entry.path == p then Some(0)
    else
      match FirstValid(ks[1..], p)
      case None => None
      case Some(i) => Some(i + 1)
  }

  /** `FirstValid` finds a valid entry for `p` with none before it, and finds none only when there is none. */
  lemma {:induction false} FirstValidIsFirst(ks: seq<LineKind>, p: string)
    ensures var r := FirstValid(ks, p);
            && (r.Some? ==> ks[r.value].Valid? && ks[r.value].entry.path == p)
            && (r.Some? ==> forall i :: 0 <= i < r.value ==> !(ks[i].Valid? && ks[i].entry.path == p))
            && (r.None? ==> forall i :: 0 <= i < |ks| ==> !(ks[i].Valid? && ks[i].entry.path == p))
    decreases |ks|
  {
    if |ks| > 0 && !(ks[0].Valid? && ks[0].entry.path == p) {
      FirstValidIsFirst(ks[1..], p);
      forall i | 1 <= i < |ks| ensures ks[i] == ks[1..][i - 1] {}
    }
  }

  /**
   * The key under which line `i` is recorded as corrupted, if it is: the text of
   * a line that is not an entry; otherwise the entry's path, unless it is the
   * first valid entry for a path not `known` before reading.
   */
  function CorruptKey(known: map<string, FileInfo>, ks: seq<LineKind>, i: nat): Option<string>
    requires i < |ks|
  {
    match ks[i]
    case Blank => None
    case NotEntry(text) => Some(text)
    case Rejected(e) => Some(e.path)
    case Valid(e) => if e.path !in known && FirstValid(ks, e.path) == Some(i) then None else Some(e.path)
  }

  /** A later valid entry for a path that already had one is recorded as corrupted. */
  lemma {:induction false} LaterDuplicateCorrupted(known: map<string, FileInfo>, ks: seq<LineKind>, i: nat, j: nat)
    requires i < j < |ks| && ks[i].Valid? && ks[j].Valid? && ks[i].entry.path == ks[j].entry.path
    ensures CorruptKey(known, ks, j) == Some(ks[j].entry.path)
  {
    FirstValidIsFirst(ks, ks[j].entry.path);
  }

  /** Which paths recording the lines accepts, and with which information. */
  lemma {:induction false} RecordAllFile(h: HistoryFile, ks: seq<LineKind>, p: string)
    ensures var r := RecordAll(h, ks);
            var first := FirstValid(ks, p);
            && (p in r.files <==> p in h.files || first.Some?)
            && (p in h.files ==> r.files[p] == h.files[p])
            && (p !in h.files && first.Some? ==> r.files[p] == EntryInfo(ks[first.value].entry))
    decreases |ks|
  {
    if |ks| > 0 {
      var h1 := Record(h, ks[0]);
      RecordAllFile(h1, ks[1..], p);
      match FirstValid(ks[1..], p)
      case None =>
      case Some(i) => assert ks[1..][i] == ks[i + 1];
    }
  }

  /** The corrupted key of a later line is the same whether read from the start or after the first line. */
  lemma {:induction false} CorruptKeyShift(h: HistoryFile, ks: seq<LineKind>, j: nat)
    requires 0 < j < |ks|
    ensures CorruptKey(Record(h, ks[0]).files, ks[1..], j - 1) == CorruptKey(h.files, ks, j)
  {
    assert ks[1..][j - 1] == ks[j];
    if ks[j].Valid? {
      match FirstValid(ks[1..], ks[j].entry.path)
      case None =>
      case Some(i) => assert ks[1..][i] == ks[i + 1];
    }
  }

  /** Which keys recording the lines marks as corrupted. */
  lemma {:induction false} RecordAllCorrupted(h: HistoryFile, ks: seq<LineKind>, key: string)
    ensures key in RecordAll(h, ks).corrupted <==>
              key in h.corrupted || exists i :: 0 <= i < |ks| && CorruptKey(h.files, ks, i) == Some(key)
    decreases |ks|
  {
    if |ks| > 0 {
      var h1 := Record(h, ks[0]);
      var tail := ks[1..];
      RecordAllCorrupted(h1, tail, key);
      assert key in h1.corrupted <==> key in h.corrupted || CorruptKey(h.files, ks, 0) == Some(key);
      if exists i :: 0 <= i < |tail| && CorruptKey(h1.files, tail, i) == Some(key) {
        var i :| 0 <= i < |tail| && CorruptKey(h1.files, tail, i) == Some(key);
        CorruptKeyShift(h, ks, i + 1);
      }
      if exists i :: 0 < i < |ks| && CorruptKey(h.files, ks, i) == Some(key) {
        var i :| 0 < i < |ks| && CorruptKey(h.files, ks, i) == Some(key);
        CorruptKeyShift(h, ks, i);
      }
    }
  }

  /**
   * Reading a history body: a path enters `files` exactly when some line holds a
   * valid entry for it, with the information of the first such line; the
   * corrupted keys are exactly the texts of the non-blank lines that are not
   * entries and the paths of every other entry (a bad CRC, a non-numeric time,
   * or a later entry for a path already accepted).
   */
  lemma {:induction false} ReadBody(crc: string -> nat, lines: seq<string>)
    ensures var r := ReadLines(crc, EmptyHistory, lines);
            var ks := Kinds(crc, lines);
            && (forall p :: p in r.files <==> FirstValid(ks, p).Some?)
            && (forall p :: p in r.files ==> r.files[p] == EntryInfo(ks[FirstValid(ks, p).value].entry))
            && (forall key :: key in r.corrupted <==> exists i :: 0 <= i < |ks| && CorruptKey(map[], ks, i) == Some(key))
  {
    var ks := Kinds(crc, lines);
    ReadLinesClassified(crc, EmptyHistory, lines);
    forall p ensures var r := RecordAll(EmptyHistory, ks);
                     var first := FirstValid(ks, p);
                     && (p in r.files <==> p in EmptyHistory.files || first.Some?)
                     && (p !in EmptyHistory.files && first.Some? ==> r.files[p] == EntryInfo(ks[first.value].entry)) {
      RecordAllFile(EmptyHistory, ks, p);
    }
    forall key ensures key in RecordAll(EmptyHistory, ks).corrupted <==>
                       key in EmptyHistory.corrupted
                       || exists i :: 0 <= i < |ks| && CorruptKey(EmptyHistory.files, ks, i) == Some(key) {
      RecordAllCorrupted(EmptyHistory, ks, key);
    }
  }

  /** The version number of a header line, if it is one: `integrity history version ([0-9]+)`. */
  function ParseHeader(line: string): (v: Option<nat>)
    ensures v.Some? <==> |line| > |HeaderPrefix| && line[..|HeaderPrefix|] == HeaderPrefix
                         && IsDecimal(line[|HeaderPrefix|..])
    ensures v.Some? ==> (DecimalDigitsBelowTen(line[|HeaderPrefix|..]); v.value == NumeralValue(line[|HeaderPrefix|..], 10))
  {
    if |line| > |HeaderPrefix| && line[..|HeaderPrefix|] == HeaderPrefix && IsDecimal(line[|HeaderPrefix|..]) then
      DecimalDigitsBelowTen(line[|HeaderPrefix|..]);
      Some(NumeralValue(line[|HeaderPrefix|..], 10))
    else None
  }

  /** Every header `history_file_write` could emit for a version reads back as that version. */
  lemma HeaderVersionRoundTrip(n: nat)
    ensures ParseHeader(HeaderPrefix + IntToDecimal(n)) == Some(n)
  {
    var line := HeaderPrefix + IntToDecimal(n);
    assert line[..|HeaderPrefix|] == HeaderPrefix;
    assert line[|HeaderPrefix|..] == IntToDecimal(n);
  }

  /** A leading zero is allowed by `[0-9]+` and dropped by `int()`. */
  lemma HeaderLeadingZero()
    ensures ParseHeader(HeaderPrefix + "01") == Some(1)
  {
    var line := HeaderPrefix + "01";
    assert line[..|HeaderPrefix|] == HeaderPrefix && line[|HeaderPrefix|..] == "01";
    assert NumeralValue("0", 10) == 0 by {
      assert NumeralValue("0", 10) == NumeralValue("", 10) * 10 + DigitValue('0');
    }
    assert NumeralValue("01", 10) == NumeralValue("0", 10) * 10 + DigitValue('1');
  }

  /** A well-formed header for version 2 makes the read fail as unsupported. */
  lemma VersionTwoUnsupported(crc: string -> nat)
    ensures ReadHistory(crc, HeaderPrefix + "2\n") == Failure(UnsupportedVersion(2))
  {
    var line := HeaderPrefix + "2";
    assert ParseHeader(line) == Some(2) by {
      assert line[..|HeaderPrefix|] == HeaderPrefix && line[|HeaderPrefix|..] == "2";
      assert NumeralValue("2", 10) == NumeralValue("", 10) * 10 + DigitValue('2');
    }
    assert SplitLines(HeaderPrefix + "2\n")[0] == line by {
      SplitJoinLines([line]);
      assert JoinLines([line]) == HeaderPrefix + "2\n";
    }
  }

  /**
   * `history_file_read`: fails unless the first line is a version-1 header
   * (an empty file has an empty first line); otherwise reads every later line.
   */
  function ReadHistory(crc: string -> nat, text: string): (r: Result<HistoryFile, ReadError>)
    ensures r.Success? <==> |SplitLines(text)| > 0 && ParseHeader(SplitLines(text)[0]) == Some(1)
    ensures r.Success? ==> r.value == ReadLines(crc, EmptyHistory, SplitLines(text)[1..])
    ensures r.Failure? && (|SplitLines(text)| == 0 || ParseHeader(SplitLines(text)[0]).None?) ==>
              r.error == NotAHistoryFile
    ensures |SplitLines(text)| > 0 && ParseHeader(SplitLines(text)[0]).Some? && ParseHeader(SplitLines(text)[0]) != Some(1) ==>
              r == Failure(UnsupportedVersion(ParseHeader(SplitLines(text)[0]).value))
  {
    var lines := SplitLines(text);
    var header := if |lines| == 0 then "" else lines[0];
    match ParseHeader(header)
    case None => Failure(NotAHistoryFile)
    case Some(version) =>
      if version != 1 then Failure(UnsupportedVersion(version))
      else Success(ReadLines(crc, EmptyHistory, lines[1..]))
  }

  // ---------------------------------------------------------------------------
  // Writing
  // ---------------------------------------------------------------------------

  /** The fields written for `path`: the recomputed CRC, and the time as `str` prints it. */
  function WrittenEntry(crc: string -> nat, path: string, info: FileInfo): Entry {
    var mtime := IntToDecimal(info.modificationTime);
    Entry(info.sha256, mtime, EntryCrc(crc, path, info.sha256, mtime), path)
  }

  /** `order` lists the keys of `files` once each: the dictionary's iteration order. */
  ghost predicate IsKeyOrder(files: map<string, FileInfo>, order: seq<string>) {
    && (forall i, j :: 0 <= i < j < |order| ==> order[i] != order[j])
    && (forall p :: p in files <==> p in order)
  }

  /** Index of the first element of `order` at or after `start` that fails `ok`. */
  function FirstFailing(order: seq<string>, ok: string -> bool, start: nat): (r: Option<nat>)
    requires start <= |order|
    ensures r.None? <==> forall i :: start <= i < |order| ==> ok(order[i])
    ensures r.Some? ==> start <= r.value < |order| && !ok(order[r.value])
    ensures r.Some? ==> forall i :: start <= i < r.value ==> ok(order[i])
    decreases |order| - start
  {
    if start == |order| then None
    else if !ok(order[start]) then Some(start)
    else FirstFailing(order, ok, start + 1)
  }

  /** Index of the first entry, in writing order, whose CRC does not match. */
  function FirstInconsistent(crc: string -> nat, files: map<string, FileInfo>, order: seq<string>): (r: Option<nat>)
    requires forall p :: p in order ==> p in files
    ensures r.None? <==> forall i :: 0 <= i < |order| ==> Consistent(crc, order[i], files[order[i]])
    ensures r.Some? ==> r.value < |order| && !Consistent(crc, order[r.value], files[order[r.value]])
    ensures r.Some? ==> forall i :: 0 <= i < r.value ==> Consistent(crc, order[i], files[order[i]])
  {
    var ok := p => p in files && Consistent(crc, p, files[p]);
    var r := FirstFailing(order, ok, 0);
    assert forall i :: 0 <= i < |order| ==> (ok(order[i]) <==> Consistent(crc, order[i], files[order[i]]));
    r
  }

  /** The entry lines in writing order. */
  function EntryLines(crc: string -> nat, files: map<string, FileInfo>, order: seq<string>): seq<string>
    requires forall p :: p in order ==> p in files
  {
    seq(|order|, i requires 0 <= i < |order| => FormatEntry(WrittenEntry(crc, order[i], files[order[i]])))
  }

  /**
   * `history_file_write`: the header, then one line per entry in dictionary order.
   * It refuses exactly when some entry's CRC disagrees with the recomputed one,
   * naming the first such entry.
   */
  function WriteHistory(crc: string -> nat, files: map<string, FileInfo>, order: seq<string>)
    : (r: Result<string, WriteError>)
    requires IsKeyOrder(files, order)
    ensures r.Success? <==> forall p :: p in files ==> Consistent(crc, p, files[p])
    ensures r.Failure? ==> r.error.path in files && !Consistent(crc, r.error.path, files[r.error.path])
  {
    match FirstInconsistent(crc, files, order)
    case Some(i) => Failure(CorruptedValueInMemory(order[i]))
    case None => Success(JoinLines([HeaderLine] + EntryLines(crc, files, order)))
  }

  // ---------------------------------------------------------------------------
  // Round trip
  // ---------------------------------------------------------------------------

  /**
   * What an entry must look like for its line to read back as itself. The path holds
   * neither line break: the history is read in text mode, whose universal newlines
   * would also end a line at a carriage return.
   */
  predicate Writable(path: string, info: FileInfo) {
    && |info.sha256| > 0 && NoSpace(info.sha256)
    && info.modificationTime >= 0
    && |path| > 0 && '\n' !in path && '\r' !in path && !IsSpace(path[0])
  }

  function Restrict(files: map<string, FileInfo>, order: seq<string>): map<string, FileInfo> {
    map p | p in order && p in files :: files[p]
  }

  /** The header `history_file_write` emits is read as version 1. */
  lemma HeaderLineVersion()
    ensures ParseHeader(HeaderLine) == Some(1)
  {
    assert HeaderLine[..|HeaderPrefix|] == HeaderPrefix;
    assert HeaderLine[|HeaderPrefix|..] == "1";
    assert NumeralValue("1", 10) == NumeralValue("", 10) * 10 + DigitValue('1');
  }

  /** Reading one written, consistent entry adds exactly that entry to `files`. */
  lemma ReadWrittenEntry(crc: string -> nat, h: HistoryFile, path: string, info: FileInfo)
    requires Consistent(crc, path, info) && Writable(path, info) && path !in h.files
    ensures ReadEntry(crc, h, FormatEntry(WrittenEntry(crc, path, info))) == h.(files := h.files[path := info])
  {
    var e := WrittenEntry(crc, path, info);
    Crc32HexForm(crc, e.sha256 + e.mtime + path);
    assert Parsable(e);
    ParseFormatEntry(e);
    assert FormatEntry(e) != "";
    assert IsDecimal(e.mtime) && NumeralValue(e.mtime, 10) == info.modificationTime;
    assert EntryInfo(e) == info;
  }

  /** Adding the first key of `order` to `acc` and restricting to the rest. */
  lemma RestrictStep(files: map<string, FileInfo>, order: seq<string>, acc: map<string, FileInfo>)
    requires |order| > 0 && order[0] in files
    ensures acc[order[0] := files[order[0]]] + Restrict(files, order[1..]) == acc + Restrict(files, order)
  {
    assert forall q :: q in order <==> q == order[0] || q in order[1..];
  }

  /** A line whose reading adds the entry `keys[i]` to any history that lacks that path. */
  ghost predicate AcceptsAt(crc: string -> nat, lines: seq<string>, keys: seq<string>,
                            vals: map<string, FileInfo>, i: nat)
    requires i < |lines| && i < |keys| && keys[i] in vals
  {
    forall a: map<string, FileInfo> :: keys[i] !in a ==>
      ReadEntry(crc, HistoryFile(a, map[]), lines[i]) == HistoryFile(a[keys[i] := vals[keys[i]]], map[])
  }

  /**
   * Reading lines that each add a new entry accumulates exactly those entries;
   * nothing is recorded as corrupted.
   */
  lemma {:induction false} ReadAccepted(crc: string -> nat, lines: seq<string>, keys: seq<string>,
                                        vals: map<string, FileInfo>, acc: map<string, FileInfo>)
    requires |lines| == |keys|
    requires forall i, j :: 0 <= i < j < |keys| ==> keys[i] != keys[j]
    requires forall i :: 0 <= i < |keys| ==> keys[i] in vals && keys[i] !in acc
    requires forall i :: 0 <= i < |keys| ==> AcceptsAt(crc, lines, keys, vals, i)
    ensures ReadLines(crc, HistoryFile(acc, map[]), lines) == HistoryFile(acc + Restrict(vals, keys), map[])
    decreases |lines|
  {
    if |lines| == 0 {
      assert acc + Restrict(vals, keys) == acc;
    } else {
      var p := keys[0];
      assert AcceptsAt(crc, lines, keys, vals, 0);
      var acc1 := acc[p := vals[p]];
      assert ReadEntry(crc, HistoryFile(acc, map[]), lines[0]) == HistoryFile(acc1, map[]);
      forall i | 0 <= i < |keys| - 1
        ensures keys[1..][i] in vals && keys[1..][i] !in acc1
        ensures AcceptsAt(crc, lines[1..], keys[1..], vals, i)
      {
        assert keys[1..][i] == keys[i + 1] && lines[1..][i] == lines[i + 1];
        assert AcceptsAt(crc, lines, keys, vals, i + 1);
      }
      ReadAccepted(crc, lines[1..], keys[1..], vals, acc1);
      RestrictStep(vals, keys, acc);
    }
  }

  /** The written line of each entry adds that entry to any history that lacks its path. */
  lemma WrittenLineAccepted(crc: string -> nat, files: map<string, FileInfo>, order: seq<string>, i: nat)
    requires i < |order|
    requires forall p :: p in order ==> p in files && Consistent(crc, p, files[p]) && Writable(p, files[p])
    ensures order[i] in files && AcceptsAt(crc, EntryLines(crc, files, order), order, files, i)
  {
    var lines := EntryLines(crc, files, order);
    var p := order[i];
    assert lines[i] == FormatEntry(WrittenEntry(crc, p, files[p]));
    forall a: map<string, FileInfo> | p !in a
      ensures ReadEntry(crc, HistoryFile(a, map[]), lines[i]) == HistoryFile(a[p := files[p]], map[])
    {
      ReadWrittenEntry(crc, HistoryFile(a, map[]), p, files[p]);
    }
  }

  /** Reading the written entry lines gives back exactly the written entries. */
  lemma ReadWrittenEntries(crc: string -> nat, files: map<string, FileInfo>, order: seq<string>)
    requires forall i, j :: 0 <= i < j < |order| ==> order[i] != order[j]
    requires forall p :: p in order ==> p in files && Consistent(crc, p, files[p]) && Writable(p, files[p])
    ensures ReadLines(crc, EmptyHistory, EntryLines(crc, files, order)) == HistoryFile(Restrict(files, order), map[])
  {
    var lines := EntryLines(crc, files, order);
    forall i | 0 <= i < |order|
      ensures order[i] in files && AcceptsAt(crc, lines, order, files, i)
    {
      WrittenLineAccepted(crc, files, order, i);
    }
    ReadAccepted(crc, lines, order, files, map[]);
    assert map[] + Restrict(files, order) == Restrict(files, order);
  }

  /** No written entry line contains a newline of its own. */
  lemma EntryLinesSingleLine(crc: string -> nat, files: map<string, FileInfo>, order: seq<string>)
    requires forall p :: p in order ==> p in files && Writable(p, files[p])
    ensures forall k :: 0 <= k < |order| ==> '\n' !in EntryLines(crc, files, order)[k]
  {
    forall k | 0 <= k < |order|
      ensures '\n' !in EntryLines(crc, files, order)[k]
    {
      var p := order[k];
      var e := WrittenEntry(crc, p, files[p]);
      assert '\n' !in e.sha256;
      Crc32HexForm(crc, e.sha256 + e.mtime + p);
    }
  }

  /** A text made of a version-1 header and body lines reads as those body lines. */
  lemma ReadHeaderThenBody(crc: string -> nat, header: string, body: seq<string>)
    requires '\n' !in header && ParseHeader(header) == Some(1)
    requires forall k :: 0 <= k < |body| ==> '\n' !in body[k]
    ensures ReadHistory(crc, JoinLines([header] + body)) == Success(ReadLines(crc, EmptyHistory, body))
  {
    var lines := [header] + body;
    var text := JoinLines(lines);
    assert SplitLines(text) == lines by {
      forall k | 0 <= k < |lines| ensures '\n' !in lines[k] {
        if k > 0 {
          assert lines[k] == body[k - 1];
        }
      }
      SplitJoinLines(lines);
    }
    assert SplitLines(text)[0] == header && SplitLines(text)[1..] == body;
  }

  /** Restricting a map to all of its keys gives the map back. */
  lemma RestrictToAllKeys(files: map<string, FileInfo>, order: seq<string>)
    requires IsKeyOrder(files, order)
    ensures Restrict(files, order) == files
  {
  }

  /**
   * Writing a consistent history and reading it back gives the same `files` map
   * and no corrupted entries.
   */
  lemma WriteReadRoundTrip(crc: string -> nat, files: map<string, FileInfo>, order: seq<string>)
    requires IsKeyOrder(files, order)
    requires forall p :: p in files ==> Consistent(crc, p, files[p]) && Writable(p, files[p])
    ensures WriteHistory(crc, files, order).Success?
    ensures ReadHistory(crc, WriteHistory(crc, files, order).value) == Success(HistoryFile(files, map[]))
  {
    var body := EntryLines(crc, files, order);
    EntryLinesSingleLine(crc, files, order);
    HeaderLineVersion();
    assert '\n' !in HeaderLine;
    ReadHeaderThenBody(crc, HeaderLine, body);
    ReadWrittenEntries(crc, files, order);
    RestrictToAllKeys(files, order);
  }
}
