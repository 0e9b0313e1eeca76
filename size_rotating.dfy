/**
  The size-based rotation of ddcLogs/size_rotating.py: the rollover callback
  `GZipRotatorSize.__call__` and the handler set-up of `SizeRotatingLog.init`.

  The filesystem is not modelled file by file. What the callback observes after
  pruning (does the source exist, its size, the `.gz` listing of the log directory,
  does the source still exist before compressing) is a `View` given as input, and what
  it does to the world (prune old logs, report to stderr, compress) is recorded, in
  order, as `Effect`s on a `Host`.
 */
module SizeRotating {
  import opened Wrappers
  import opened Text
  import opened ArchiveNumbering

  // ---------------------------------------------------------------------------
  // The decision procedure as a specification

  /** What the callback learns from the filesystem, after the old logs were pruned. */
  datatype View = View(
    sourceIsFile: bool,           // `os.path.isfile(source)` at the first check
    sourceSize: nat,              // `os.stat(source).st_size`
    gzFiles: seq<string>,         // `list_files(directory, ends_with=".gz")`, bare names in listing order
    sourceIsFileAtCompress: bool  // `os.path.isfile(source)` just before compressing
  )

  /** The callback's effects on the world outside the process, in the order they happen. */
  datatype Effect =
    | OldLogsRemoved(directory: string, daysToKeep: int)  // `remove_old_logs`
    | ErrorReported(gzFile: string)                       // `write_stderr` naming the offending archive
    | Gzipped(source: string, number: int)                // `gzip_file(source, number)`

  /** What one call does: its effects, and the error it raises, if any. */
  datatype Rollover = Rollover(effects: seq<Effect>, raised: Option<RotateError>)

  /**
    `stem, _ = basename.split(".")`: the stem when the basename holds exactly one `.`;
    otherwise the unpacking raises. `SourceStemIsSplit` ties it to `Split`.
   */
  function SourceStem(basename: string): Result<string, RotateError>
  {
    if Count(basename, '.') == 1 then Success(BeforeFirst(basename, '.'))
    else Failure(BadSourceName(basename))
  }

  /**
    The unpacking succeeds exactly when `split(".")` yields two pieces, and the stem is
    then the first piece.
   */
  lemma SourceStemIsSplit(basename: string)
    ensures SourceStem(basename).Success? <==> |Split(basename, '.')| == 2
    ensures SourceStem(basename).Success? ==> SourceStem(basename).value == Split(basename, '.')[0]
  {
    SplitJoinsBack(basename, '.');
    SplitHeadIsBeforeFirst(basename, '.');
  }

  /**
    What the unpacking accepts: a basename that is a stem without `.`, a `.` and a
    rest without `.`; the stem is the part before the `.`. A rejected basename is the
    error.
   */
  lemma SourceStemShape(basename: string)
    ensures SourceStem(basename).Failure? ==> SourceStem(basename).error == BadSourceName(basename)
    ensures SourceStem(basename).Success? ==>
      var stem := SourceStem(basename).value;
      && '.' !in stem
      && |stem| < |basename|
      && basename == stem + "." + basename[|stem| + 1..]
      && '.' !in basename[|stem| + 1..]
  {
    var parts := Split(basename, '.');
    SourceStemIsSplit(basename);
    SplitJoinsBack(basename, '.');
    SplitPieces(basename, '.');
    if |parts| == 2 {
      assert Join(parts, '.') == parts[0] + ['.'] + parts[1];
      assert basename[|parts[0]| + 1..] == parts[1];
    }
  }

  /** Conversely, `stem.rest` with no `.` in either part unpacks to `stem`. */
  lemma SourceStemOfDotted(stem: string, rest: string)
    requires '.' !in stem && '.' !in rest
    ensures SourceStem(stem + "." + rest) == Success(stem)
  {
    var basename := stem + "." + rest;
    assert basename == stem + ['.'] + rest;
    SplitAfterFirst(stem, '.', rest);
    SplitWithoutSeparator(rest, '.');
    SourceStemIsSplit(basename);
  }

  /** One call of the callback, as a function of the rotator's settings, the source path and the view. */
  function RolloverOf(directory: string, daysToKeep: int, source: string, view: View): Rollover
  {
    var pruned := [OldLogsRemoved(directory, daysToKeep)];
    if !(view.sourceIsFile && view.sourceSize > 0) then
      Rollover(pruned, None)
    else
      match SourceStem(Basename(source))
      case Failure(e) => Rollover(pruned, Some(e))
      case Success(stem) =>
        match ArchiveNumber(stem, view.gzFiles)
        case Failure(e) => Rollover(pruned + [ErrorReported(e.gzFile)], Some(e))
        case Success(n) =>
          Rollover(pruned + (if view.sourceIsFileAtCompress then [Gzipped(source, n)] else []), None)
  }

  /**
    Every call prunes first and once, does at most one more thing, and never
    compresses when it raises.
   */
  lemma PruneFirstNoCompressOnError(directory: string, daysToKeep: int, source: string, view: View)
    ensures var r := RolloverOf(directory, daysToKeep, source, view);
      && 1 <= |r.effects| <= 2
      && r.effects[0] == OldLogsRemoved(directory, daysToKeep)
      && (forall i :: 0 < i < |r.effects| ==> !r.effects[i].OldLogsRemoved?)
      && (r.raised.Some? ==> forall i :: 0 <= i < |r.effects| ==> !r.effects[i].Gzipped?)
  {
  }

  /** A missing or empty source: the old logs are pruned and nothing else happens. */
  lemma MissingOrEmptySourceOnlyPrunes(directory: string, daysToKeep: int, source: string, view: View)
    requires !view.sourceIsFile || view.sourceSize == 0
    ensures RolloverOf(directory, daysToKeep, source, view) ==
      Rollover([OldLogsRemoved(directory, daysToKeep)], None)
  {
  }

  /**
    A source whose basename does not hold exactly one `.` raises after pruning and
    before any listing is scanned, whatever the listing holds.
   */
  lemma BadSourceNameRaisesBeforeScan(directory: string, daysToKeep: int, source: string, view: View)
    requires view.sourceIsFile && view.sourceSize > 0
    requires Count(Basename(source), '.') != 1
    ensures RolloverOf(directory, daysToKeep, source, view) ==
      Rollover([OldLogsRemoved(directory, daysToKeep)], Some(BadSourceName(Basename(source))))
  {
  }

  /**
    The source is compressed exactly when it exists and is non-empty, its basename has
    one `.`, the scan does not raise and the source still exists at the end; it is then
    compressed once, right after pruning, under the number the scan yields.
   */
  lemma CompressesExactlyWhen(directory: string, daysToKeep: int, source: string, view: View)
    ensures var r := RolloverOf(directory, daysToKeep, source, view);
      (exists i :: 0 <= i < |r.effects| && r.effects[i].Gzipped?) <==>
        && view.sourceIsFile && view.sourceSize > 0
        && SourceStem(Basename(source)).Success?
        && ArchiveNumber(SourceStem(Basename(source)).value, view.gzFiles).Success?
        && view.sourceIsFileAtCompress
    ensures var r := RolloverOf(directory, daysToKeep, source, view);
      forall i :: 0 <= i < |r.effects| && r.effects[i].Gzipped? ==>
        && i == 1
        && r.effects[i] == Gzipped(source, ArchiveNumber(SourceStem(Basename(source)).value, view.gzFiles).value)
  {
    var r := RolloverOf(directory, daysToKeep, source, view);
    if && view.sourceIsFile && view.sourceSize > 0
       && SourceStem(Basename(source)).Success?
       && ArchiveNumber(SourceStem(Basename(source)).value, view.gzFiles).Success?
       && view.sourceIsFileAtCompress
    {
      assert r.effects[1].Gzipped?;
    }
  }

  /**
    A malformed archive of this log in the listing: the error is reported on stderr,
    then raised, and the source is not compressed.
   */
  lemma MalformedArchiveReportsAndRaises(directory: string, daysToKeep: int, source: string, view: View, stem: string)
    requires view.sourceIsFile && view.sourceSize > 0
    requires SourceStem(Basename(source)) == Success(stem)
    requires exists j :: 0 <= j < |view.gzFiles| && Classify(stem, view.gzFiles[j]).Raise?
    ensures var r := RolloverOf(directory, daysToKeep, source, view);
      && r.raised.Some? && r.raised.value.BadArchiveNumber?
      && r.effects == [OldLogsRemoved(directory, daysToKeep), ErrorReported(r.raised.value.gzFile)]
      && r.raised.value.gzFile in view.gzFiles
  {
    var j :| 0 <= j < |view.gzFiles| && Classify(stem, view.gzFiles[j]).Raise?;
    StepsAre(stem, view.gzFiles);
    assert Steps(stem, view.gzFiles)[j].Raise?;
  }

  /** A source that is compressed: pruning, then compressing under the number the scan yields. */
  lemma RolloverCompresses(directory: string, daysToKeep: int, source: string, view: View, stem: string, n: int)
    requires view.sourceIsFile && view.sourceSize > 0 && view.sourceIsFileAtCompress
    requires SourceStem(Basename(source)) == Success(stem)
    requires ArchiveNumber(stem, view.gzFiles) == Success(n)
    ensures RolloverOf(directory, daysToKeep, source, view) ==
      Rollover([OldLogsRemoved(directory, daysToKeep), Gzipped(source, n)], None)
  {
  }

  /**
    The first rotation of a log whose directory holds no archive of it compresses the
    source as number 1, that is into `{stem}_1.log.gz`.
   */
  lemma FirstRotationIsNumberOne(directory: string, daysToKeep: int, source: string, view: View, stem: string)
    requires view.sourceIsFile && view.sourceSize > 0 && view.sourceIsFileAtCompress
    requires SourceStem(Basename(source)) == Success(stem)
    requires forall j :: 0 <= j < |view.gzFiles| ==> !Contains(view.gzFiles[j], stem)
    ensures RolloverOf(directory, daysToKeep, source, view) ==
      Rollover([OldLogsRemoved(directory, daysToKeep), Gzipped(source, 1)], None)
  {
    NoMatchNumbersOne(stem, view.gzFiles);
    RolloverCompresses(directory, daysToKeep, source, view, stem, 1);
  }

  /**
    Two rotations in a row: when the archive written by the first is the last name of
    the listing the second sees, the second compresses under the next number.
   */
  lemma NextRotationIncrements(directory: string, daysToKeep: int, source: string, view: View, stem: string, n: int)
    requires view.sourceIsFile && view.sourceSize > 0 && view.sourceIsFileAtCompress
    requires SourceStem(Basename(source)) == Success(stem) && '_' !in stem
    requires |view.gzFiles| > 0 && view.gzFiles[|view.gzFiles| - 1] == ArchiveName(stem, n)
    requires ArchiveNumber(stem, view.gzFiles[..|view.gzFiles| - 1]).Success?
    ensures RolloverOf(directory, daysToKeep, source, view) ==
      Rollover([OldLogsRemoved(directory, daysToKeep), Gzipped(source, n + 1)], None)
  {
    SourceStemShape(Basename(source));
    var earlier := view.gzFiles[..|view.gzFiles| - 1];
    assert view.gzFiles == earlier + [ArchiveName(stem, n)];
    NextAfterArchiveName(stem, earlier, n);
    RolloverCompresses(directory, daysToKeep, source, view, stem, n + 1);
  }

  /**
    The test suite's case: a fresh `/tmp/test1.log` of 2 MiB in a directory with no
    archives is compressed as archive 1, `test1_1.log.gz`.
   */
  lemma TestSuiteFirstRotation(directory: string, daysToKeep: int, source: string, view: View, stem: string)
    requires stem == "test1" && source == "/tmp/" + stem + ".log"
    requires view == View(true, 2 * 1024 * 1024, [], true)
    ensures RolloverOf(directory, daysToKeep, source, view) ==
      Rollover([OldLogsRemoved(directory, daysToKeep), Gzipped(source, 1)], None)
    ensures ArchiveName(stem, 1) == stem + "_1.log.gz"
  {
    var base := stem + "." + "log";
    assert source == "/tmp" + "/" + base;
    BasenameOfJoin("/tmp", base);
    SourceStemOfDotted(stem, "log");
    assert IntToString(1) == "1";
    FirstRotationIsNumberOne(directory, daysToKeep, source, view, stem);
  }

  // ---------------------------------------------------------------------------
  // The world the callback acts on

  /** The filesystem and error stream, seen only through the effects performed on them. */
  class Host {
    var trace: seq<Effect>

    constructor ()
      ensures trace == []
    {
      trace := [];
    }

    /** `remove_old_logs(directory, days_to_keep)`, whose own logic is not part of this model. */
    method RemoveOldLogs(directory: string, daysToKeep: int)
      modifies this
      ensures trace == old(trace) + [OldLogsRemoved(directory, daysToKeep)]
    {
      trace := trace + [OldLogsRemoved(directory, daysToKeep)];
    }

    /** `write_stderr` of the message naming `gzFile`. */
    method WriteStderr(gzFile: string)
      modifies this
      ensures trace == old(trace) + [ErrorReported(gzFile)]
    {
      trace := trace + [ErrorReported(gzFile)];
    }

    /** `gzip_file(source, number)`, whose own logic is not part of this model. */
    method GzipFile(source: string, number: int)
      modifies this
      ensures trace == old(trace) + [Gzipped(source, number)]
    {
      trace := trace + [Gzipped(source, number)];
    }
  }

  // ---------------------------------------------------------------------------
  // The callback

  /** The rollover callback a file handler calls when its file is full. */
  class GZipRotatorSize {
    const directory: string
    const daysToKeep: int

    constructor (dirLogs: string, daysToKeep: int)
      ensures directory == dirLogs && this.daysToKeep == daysToKeep
    {
      directory := dirLogs;
      this.daysToKeep := daysToKeep;
    }

    /**
      `__call__(source, dest)`: prune, then, for an existing non-empty source, find the
      next archive number and compress. `dest` is unused, as in the source. Returns the
      error the call raises, if any.
     */
    method Call(source: string, dest: string, view: View, host: Host) returns (raised: Option<RotateError>)
      modifies host
      ensures host.trace == old(host.trace) + RolloverOf(directory, daysToKeep, source, view).effects
      ensures raised == RolloverOf(directory, daysToKeep, source, view).raised
    {
      host.RemoveOldLogs(directory, daysToKeep);
      if view.sourceIsFile && view.sourceSize > 0 {
        var basename := Basename(source);
        var parts := Split(basename, '.');
        SourceStemIsSplit(basename);
        if |parts| != 2 {
          return Some(BadSourceName(basename));
        }
        var stem := parts[0];
        var number := NextArchiveNumber(stem, view.gzFiles);
        if number.Failure? {
          host.WriteStderr(number.error.gzFile);
          return Some(number.error);
        }
        if view.sourceIsFileAtCompress {
          host.GzipFile(source, number.value);
        }
      }
      return None;
    }
  }

  // ---------------------------------------------------------------------------
  // Handler set-up

  /** The handlers `SizeRotatingLog.init` attaches to the logger. */
  datatype Handler =
    | FileHandler(
        directory: string, filename: string, mode: string, maxBytes: int, backupCount: int,
        encoding: string, delay: bool, rotator: GZipRotatorSize, level: string)
    | StreamHandler(level: string)

  /** The logger `get_logger_and_formatter` hands back: its level and its handlers. */
  class Logger {
    var level: string
    var handlers: seq<Handler>

    constructor (level: string, handlers: seq<Handler>)
      ensures this.level == level && this.handlers == handlers
    {
      this.level := level;
      this.handlers := handlers;
    }

    method SetLevel(level: string)
      modifies this
      ensures this.level == level && handlers == old(handlers)
    {
      this.level := level;
    }

    method AddHandler(h: Handler)
      modifies this
      ensures handlers == old(handlers) + [h] && level == old(level)
    {
      handlers := handlers + [h];
    }
  }

  /** The settings of a size-rotating log, stored as given. */
  class SizeRotatingLog {
    const level: string
    const name: string
    const directory: string
    const filenames: seq<string>
    const encoding: string
    const datefmt: string
    const daysToKeep: int
    const utc: bool
    const streamHandler: bool
    const showLocation: bool
    const maxMbytes: int

    constructor (level: string, name: string, directory: string, filenames: seq<string>,
                 encoding: string, datefmt: string, daysToKeep: int, utc: bool,
                 streamHandler: bool, showLocation: bool, maxMbytes: int)
      ensures this.level == level && this.name == name && this.directory == directory
      ensures this.filenames == filenames && this.encoding == encoding && this.datefmt == datefmt
      ensures this.daysToKeep == daysToKeep && this.utc == utc && this.streamHandler == streamHandler
      ensures this.showLocation == showLocation && this.maxMbytes == maxMbytes
    {
      this.level := level;
      this.name := name;
      this.directory := directory;
      this.filenames := filenames;
      this.encoding := encoding;
      this.datefmt := datefmt;
      this.daysToKeep := daysToKeep;
      this.utc := utc;
      this.streamHandler := streamHandler;
      this.showLocation := showLocation;
      this.maxMbytes := maxMbytes;
    }

    /**
      `h` is the file handler `init` builds for `file`: append mode, a threshold of
      `max_mbytes` MiB, `days_to_keep` backups, and a rotator on this directory keeping
      logs `days_to_keep` days.
     */
    ghost predicate HandlesFile(h: Handler, file: string)
    {
      && h.FileHandler?
      && h.directory == directory && h.filename == file
      && h.mode == "a" && !h.delay && h.encoding == encoding && h.level == level
      && h.maxBytes == maxMbytes * 1048576
      && h.backupCount == daysToKeep
      && h.rotator.directory == directory && h.rotator.daysToKeep == daysToKeep
    }

    /**
      `init()`: set the logger's level, add one size-rotating file handler per file
      name, in order, then a stream handler when asked for.
     */
    method Init(logger: Logger) returns (result: Logger)
      modifies logger
      ensures result == logger && logger.level == level
      ensures |logger.handlers| == |old(logger.handlers)| + |filenames| + (if streamHandler then 1 else 0)
      ensures logger.handlers[..|old(logger.handlers)|] == old(logger.handlers)
      ensures forall i :: 0 <= i < |filenames| ==>
        && HandlesFile(logger.handlers[|old(logger.handlers)| + i], filenames[i])
        && fresh(logger.handlers[|old(logger.handlers)| + i].rotator)
      ensures streamHandler ==> logger.handlers[|logger.handlers| - 1] == StreamHandler(level)
    {
      logger.SetLevel(level);
      var base := |logger.handlers|;
      for k := 0 to |filenames|
        invariant logger.level == level
        invariant |logger.handlers| == base + k
        invariant logger.handlers[..base] == old(logger.handlers)
        invariant forall i :: 0 <= i < k ==>
          HandlesFile(logger.handlers[base + i], filenames[i]) && fresh(logger.handlers[base + i].rotator)
      {
        var rotator := new GZipRotatorSize(directory, daysToKeep);
        var handler := FileHandler(
          directory, filenames[k], "a", maxMbytes * 1024 * 1024, daysToKeep,
          encoding, false, rotator, level);
        logger.AddHandler(handler);
      }
      if streamHandler {
        ghost var before := logger.handlers;
        logger.AddHandler(StreamHandler(level));
        assert logger.handlers[..|before|] == before;
      }
      return logger;
    }
  }
}
