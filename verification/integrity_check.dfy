/**
 * The decision `integrity_check` takes once both states are known: which files
 * are new, deleted, changed (a new modification time) or corrupted (same time,
 * different content; or a path whose history entry was itself corrupted), what
 * it returns, whether it rewrites the history file, and when printing the
 * corrupted files raises instead.
 *
 * Reading the directory (globbing, hashing, `stat`) and the history file are
 * not modelled: the two states are the inputs.
 */
module IntegrityCheck {
  import opened IntegrityHistory
  import opened Text
  import HashDiff

  /** `IntegrityCheckOptions`. */
  datatype Options = Options(ignoreNew: bool, noDeleted: bool, noModified: bool)

  /** The options `main` builds: `--no-changes` switches on all three. */
  function OptionsFromFlags(ignoreNew: bool, noDeleted: bool, noModified: bool, noChanges: bool): (o: Options)
    ensures noChanges ==> o == Options(true, true, true)
    ensures !noChanges ==> o == Options(ignoreNew, noDeleted, noModified)
  {
    Options(ignoreNew || noChanges, noDeleted || noChanges, noModified || noChanges)
  }

  /** `CorruptedFileInfo` without its path (the path is the map key). */
  datatype CorruptedFile = CorruptedFile(sha256Old: string, sha256New: string, crc32Old: string, crc32New: string)

  /** What the comparison loop makes of one file of the current state. */
  datatype Verdict = Unchanged | Changed | Corrupted(info: CorruptedFile) | New | IgnoredNew

  /**
   * One file of the current state against the history: a known path is changed
   * if its time moved (unless `noModified`), otherwise corrupted if its hash
   * differs; an unknown path is corrupted if the history held a corrupted entry
   * for it, and otherwise new (or ignored with `ignoreNew`).
   */
  function Classify(history: HistoryFile, path: string, current: FileInfo, opts: Options): (v: Verdict)
    ensures v == Changed ==> path in history.files && !opts.noModified
                             && current.modificationTime != history.files[path].modificationTime
    ensures v == Unchanged <==> path in history.files && current.sha256 == history.files[path].sha256
                                && (opts.noModified || current.modificationTime == history.files[path].modificationTime)
    ensures v.Corrupted? && path in history.files ==>
              current.sha256 != history.files[path].sha256
              && (opts.noModified || current.modificationTime == history.files[path].modificationTime)
    ensures v.Corrupted? ==> v.info.sha256New == current.sha256 && v.info.crc32New == current.crc32
    ensures (v == New || v == IgnoredNew) <==> path !in history.files && path !in history.corrupted
    ensures v == IgnoredNew <==> path !in history.files && path !in history.corrupted && opts.ignoreNew
  {
    if path in history.files then
      var before := history.files[path];
      if !opts.noModified && current.modificationTime != before.modificationTime then Changed
      else if current.sha256 == before.sha256 then Unchanged
      else Corrupted(CorruptedFile(before.sha256, current.sha256, before.crc32, current.crc32))
    else if path in history.corrupted then
      var before := history.corrupted[path];
      Corrupted(CorruptedFile(before.sha256, current.sha256, before.crc32, current.crc32))
    else if opts.ignoreNew then IgnoredNew
    else New
  }

  /** The four lists `integrity_check` prints, as sets (the printing order is not modelled). */
  datatype Report = Report(newFiles: set<string>, deleted: set<string>, changed: set<string>,
                           corrupted: map<string, CorruptedFile>)

  predicate IsQuiet(r: Report) {
    r.newFiles == {} && r.deleted == {} && r.changed == {} && r.corrupted == map[]
  }

  /** The report of comparing the current files with the history. */
  function Compare(history: HistoryFile, current: map<string, FileInfo>, opts: Options): (r: Report)
    ensures r.deleted == history.files.Keys - current.Keys
    ensures r.newFiles <= current.Keys && r.changed <= current.Keys && r.corrupted.Keys <= current.Keys
    ensures r.newFiles !! r.changed && r.newFiles !! r.corrupted.Keys && r.changed !! r.corrupted.Keys
    ensures forall p :: p in current ==>
              (p in r.newFiles <==> Classify(history, p, current[p], opts) == New)
              && (p in r.changed <==> Classify(history, p, current[p], opts) == Changed)
              && (p in r.corrupted <==> Classify(history, p, current[p], opts).Corrupted?)
    ensures forall p :: p in r.corrupted ==> r.corrupted[p] == Classify(history, p, current[p], opts).info
  {
    Report(
      set p | p in current && Classify(history, p, current[p], opts) == New,
      set p | p in history.files && p !in current,
      set p | p in current && Classify(history, p, current[p], opts) == Changed,
      map p | p in current && Classify(history, p, current[p], opts).Corrupted? :: Classify(history, p, current[p], opts).info)
  }

  /**
   * Whether `str` of a `CorruptedFileInfo` succeeds: it computes `hash_bin_diff`
   * of both hash pairs, and `int(…, 16)` raises `ValueError` on a hash it
   * cannot read.
   */
  predicate Printable(c: CorruptedFile) {
    HashDiff.HashBinDiff(c.sha256Old, c.sha256New).Some? && HashDiff.HashBinDiff(c.crc32Old, c.crc32New).Some?
  }

  /**
   * How `integrity_check` ends: it returns a code, having rewritten the history
   * or not, or a `ValueError` escapes while the corrupted files are printed.
   */
  datatype Outcome = Returned(code: int, writesHistory: bool) | Raised

  /**
   * The decision after the comparison: nothing to report returns 0 without
   * writing; corrupted files are printed, which raises if one of them holds a
   * hash `int` cannot read, and otherwise returns -1; a history that held
   * corrupted entries, and a forbidden deletion or modification, return -1;
   * otherwise the history is replaced by the current state and the result is 0.
   */
  function Decide(history: HistoryFile, r: Report, opts: Options): (o: Outcome)
    ensures o.Raised? <==> exists p :: p in r.corrupted && !Printable(r.corrupted[p])
    ensures o.Returned? ==> o.code == 0 || o.code == -1
    ensures o.Returned? && o.writesHistory ==> o.code == 0
    ensures o.Returned? ==> (o.code == 0 <==> IsQuiet(r) || o.writesHistory)
    ensures o == Returned(0, true) <==>
              !IsQuiet(r) && r.corrupted == map[] && history.corrupted == map[]
              && !(opts.noModified && r.changed != {}) && !(opts.noDeleted && r.deleted != {})
  {
    if IsQuiet(r) then Returned(0, false)
    else if r.corrupted != map[] then
      if exists p :: p in r.corrupted && !Printable(r.corrupted[p]) then Raised else Returned(-1, false)
    else if history.corrupted != map[] then Returned(-1, false)
    else if (opts.noModified && r.changed != {}) || (opts.noDeleted && r.deleted != {}) then Returned(-1, false)
    else Returned(0, true)
  }

  /** `integrity_check` on the two states. */
  function Check(history: HistoryFile, current: map<string, FileInfo>, opts: Options): Outcome {
    Decide(history, Compare(history, current, opts), opts)
  }

  /**
   * The process status: `exit(n)` keeps the low byte, so -1 becomes 255; an
   * uncaught exception ends the interpreter with 1.
   */
  function ExitStatus(o: Outcome): (s: int)
    ensures 0 <= s < 256
    ensures o.Returned? && 0 <= o.code < 256 ==> s == o.code
    ensures o.Returned? && o.code == -1 ==> s == 255
    ensures o.Raised? ==> s == 1
  {
    if o.Raised? then 1 else o.code % 256
  }

  // ---------------------------------------------------------------------------
  // Properties
  // ---------------------------------------------------------------------------

  /** With `noModified` no file is ever reported as changed, so the `noModified` half of the final guard never fires. */
  lemma NoModifiedNeverChanged(history: HistoryFile, current: map<string, FileInfo>, opts: Options)
    requires opts.noModified
    ensures Compare(history, current, opts).changed == {}
    ensures Check(history, current, opts) == Returned(0, true) <==>
              var r := Compare(history, current, opts);
              !IsQuiet(r) && r.corrupted == map[] && history.corrupted == map[] && !(opts.noDeleted && r.deleted != {})
  {
  }

  /** A directory identical to its history is clean: 0, and the history is left alone. */
  lemma IdenticalStateIsClean(history: HistoryFile, opts: Options)
    ensures Check(history, history.files, opts) == Returned(0, false)
  {
    var r := Compare(history, history.files, opts);
    forall p | p in history.files
      ensures Classify(history, p, history.files[p], opts) == Unchanged
    {
    }
    assert IsQuiet(r);
  }

  /**
   * The core assumption of the tool: a file whose modification time is the
   * recorded one but whose content hash differs is reported as corrupted, and the
   * history is not rewritten.
   */
  lemma SilentChangeIsCorruption(history: HistoryFile, current: map<string, FileInfo>, opts: Options, path: string)
    requires path in history.files && path in current
    requires current[path].modificationTime == history.files[path].modificationTime
    requires current[path].sha256 != history.files[path].sha256
    ensures path in Compare(history, current, opts).corrupted
    ensures Check(history, current, opts) in {Returned(-1, false), Raised}
  {
  }

  /** A file with a new modification time is a change, not a corruption, whatever its content. */
  lemma TouchedFileIsChanged(history: HistoryFile, current: map<string, FileInfo>, opts: Options, path: string)
    requires path in history.files && path in current && !opts.noModified
    requires current[path].modificationTime != history.files[path].modificationTime
    ensures path in Compare(history, current, opts).changed
    ensures path !in Compare(history, current, opts).corrupted
  {
  }

  /**
   * `noDeleted` never turns a deletion into a corruption: a missing file is only
   * listed as deleted, and it blocks the history update with -1.
   */
  lemma NoDeletedBlocksUpdate(history: HistoryFile, current: map<string, FileInfo>, opts: Options, path: string)
    requires opts.noDeleted && path in history.files && path !in current
    ensures path in Compare(history, current, opts).deleted
    ensures path !in Compare(history, current, opts).corrupted
    ensures Check(history, current, opts) in {Returned(-1, false), Raised}
  {
  }

  /**
   * A corrupted history entry for a path that no longer exists does not stop a
   * clean run: the lookup into the corrupted entries happens only for current
   * files, so nothing is reported and 0 is returned.
   */
  lemma StaleCorruptedEntryIgnored(history: HistoryFile, opts: Options, path: string)
    requires path !in history.files && path in history.corrupted
    ensures Check(history, history.files, opts) == Returned(0, false)
  {
    IdenticalStateIsClean(history, opts);
  }

  /**
   * `ignoreNew` only keeps new files out of the report: when another change makes
   * the history be rewritten, the whole current state is written, new files
   * included.
   */
  lemma IgnoredNewFileStillRecorded(history: HistoryFile, current: map<string, FileInfo>, opts: Options,
                                    newPath: string, deletedPath: string)
    requires opts.ignoreNew && !opts.noDeleted && history.corrupted == map[]
    requires newPath in current && newPath !in history.files
    requires deletedPath in history.files && deletedPath !in current
    requires forall p :: p in current && p in history.files ==> current[p] == history.files[p]
    ensures newPath !in Compare(history, current, opts).newFiles
    ensures Check(history, current, opts) == Returned(0, true)
  {
    var r := Compare(history, current, opts);
    assert deletedPath in r.deleted;
    forall p | p in current
      ensures !Classify(history, p, current[p], opts).Corrupted?
    {
    }
    assert r.corrupted == map[];
  }

  /**
   * The script ends with 0, 1 or 255, and with 1 exactly when a corrupted
   * file's report cannot be printed.
   */
  lemma CheckExitStatus(history: HistoryFile, current: map<string, FileInfo>, opts: Options)
    ensures var s := ExitStatus(Check(history, current, opts));
            s == 0 || s == 1 || s == 255
    ensures var r := Compare(history, current, opts);
            ExitStatus(Check(history, current, opts)) == 1 <==> exists p :: p in r.corrupted && !Printable(r.corrupted[p])
  {
  }

  /** Hashes as `sha256` and `crc32` digests write them, hexadecimal digits, always print. */
  lemma HexHashesPrintable(c: CorruptedFile)
    requires IsHex(c.sha256Old) && IsHex(c.sha256New) && IsHex(c.crc32Old) && IsHex(c.crc32New)
    ensures Printable(c)
  {
    HashDiff.PlainHashBinDiff(c.sha256Old, c.sha256New);
    HashDiff.PlainHashBinDiff(c.crc32Old, c.crc32New);
  }

  /**
   * A history line that is not an entry is kept as a corrupted entry with empty
   * hashes under the line's own text. When that text is the path of a current
   * file, the file is reported as corrupted and printing it raises: `int('', 16)`
   * fails.
   */
  lemma CorruptedLineRaises(history: HistoryFile, current: map<string, FileInfo>, opts: Options, path: string)
    requires path in current && path !in history.files
    requires path in history.corrupted && history.corrupted[path] == EmptyInfo
    ensures path in Compare(history, current, opts).corrupted
    ensures Check(history, current, opts) == Raised
  {
    var r := Compare(history, current, opts);
    HashDiff.ParseHexRejects("");
    assert !Printable(r.corrupted[path]);
  }
}
