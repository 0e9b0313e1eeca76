# ddcLogs size rotation, modelled in Dafny

This project models the size-based log rotation of ddcLogs
(`ddcLogs/size_rotating.py`). It covers two pieces:

- `SizeRotatingLog.init` attaches one `RotatingFileHandler` per configured file
  name. Each handler gets a threshold of `max_mbytes` MiB, `days_to_keep`
  backups and a `GZipRotatorSize` callback, and an optional stream handler is
  added at the end.
- `GZipRotatorSize.__call__` is the rollover callback, and it runs in this order:
  1. It prunes old logs.
  2. If the source file exists and is not empty, it takes the stem of its basename.
  3. It scans the `.gz` listing of the log directory for the next archive number.
  4. It compresses the source under that number.

The modules are:

- `Wrappers` (`wrappers.dfy`): `Option` and `Result`.
- `Text` (`text.dfy`): the pieces of Python string behaviour the callback uses.
  These are `str.split` on one character, the substring test `needle in hay`,
  `os.path.basename` on POSIX paths, `int(text)` in base 10 and `str(n)`.
  `int(text)` strips surrounding whitespace: the six ASCII blanks and the
  non-ASCII whitespace, but not the separators U+001C to U+001F. It then takes
  an optional sign and ASCII digits.
- `ArchiveNumbering` (`numbering.dfy`): the archive-number scan.
  - Each listed name is classified as a `Step`: `Keep`, `SetTo(n)` or `Raise`.
  - `ArchiveNumber` is the declarative outcome of the scan. The first malformed
    matching name raises. Otherwise the last matching numbered name decides.
    Otherwise the number is 1.
  - `NextArchiveNumber` is the loop of the source, proved equal to `ArchiveNumber`.
- `SizeRotating` (`size_rotating.dfy`): the callback and the set-up.
  - `RolloverOf` is the specification of one call. It gives the call's effects in
    order (prune, report on stderr, compress) and the error it raises.
  - `GZipRotatorSize.Call` is the imperative callback. It performs those effects on
    a `Host` and is proved to match `RolloverOf`.
  - `SizeRotatingLog.Init` builds the handlers on a `Logger`.

The filesystem is not modelled file by file. A `View` value holds what the
callback observes:

- whether the source is a file;
- its size;
- the names `list_files` returns, in their order;
- whether the source is still a file just before compressing.

What the callback does to the world is appended to `Host.trace`.

The archive number is the second `_`-field plus one of the LAST matching name
that has a second `_`-field; a later matching name without one keeps the number.
It is not the largest existing number plus one. With `app_10.log.gz` listed
before `app_9.log.gz`, the next number is 10, which is an existing archive
(`LastNumberNotLargest`). A description of the rotator that says "largest plus
one" does not match the code; this model follows the code. Matching is a
substring test, so the stem `test1` also counts `test10_4.log.gz`
(`SubstringMatchCrossesStems`). A stem that itself contains `_` reads its own
part after that `_` as the number. When that part is not an integer, every
rotation after the first raises (`UnderscoreStemRaises`). When it is an integer
`v`, every rotation after the first is numbered `v + 1`: for `app_2.log` the
archives are 1, then 3, then 3 again (`IntegerUnderscoreStemRepeats`).

## Model

| member | source | states |
|---|---|---|
| Text.Split | ddcLogs/size_rotating.py:103 | `str.split` on one character never yields an empty list |
| Text.SplitPieces | ddcLogs/size_rotating.py:103 | there are several pieces exactly when the separator occurs, and no piece contains it |
| Text.SplitJoinsBack | ddcLogs/size_rotating.py:97 | joining the pieces with the separator gives back the text, and there is one piece more than occurrences of the separator |
| Text.SplitJoin | ddcLogs/size_rotating.py:97 | splitting undoes joining for any non-empty list of separator-free pieces |
| Text.SplitWithoutSeparator | ddcLogs/size_rotating.py:103-104 | a text without the separator splits into itself alone |
| Text.SplitAfterFirst | ddcLogs/size_rotating.py:103 | splitting `a + sep + b`, with no separator in `a`, yields `a` followed by the pieces of `b` |
| Text.SplitHeadIsTextBeforeFirst | ddcLogs/size_rotating.py:103 | the first piece is the prefix before the first separator, and it is the whole text exactly when there is no separator |
| Text.SplitHeadIsBeforeFirst | ddcLogs/size_rotating.py:103 | the first piece equals the text before the first separator |
| Text.ContainsIsSubstring | ddcLogs/size_rotating.py:101 | `needle in hay` holds exactly when some position of `hay` starts a copy of `needle` |
| Text.BasenameIsLastComponent | ddcLogs/size_rotating.py:97 | the basename is a suffix without `/` that is preceded by `/` or by the start of the path |
| Text.BasenameOfJoin | ddcLogs/size_rotating.py:97 | the basename of `dir/name` is `name` when `name` holds no `/` |
| Text.TrimLeftDropsSpace | ddcLogs/size_rotating.py:105 | `int()` drops exactly the leading whitespace |
| Text.TrimRightDropsSpace | ddcLogs/size_rotating.py:105 | `int()` drops exactly the trailing whitespace |
| Text.NatToDigits | ddcLogs/size_rotating.py:105 | the decimal digits of a natural number are a numeral whose value is that number |
| Text.IntToString | ddcLogs/size_rotating.py:105 | `str(n)` is non-empty, all digits except a leading `-` |
| Text.IntToStringRoundTrip | ddcLogs/size_rotating.py:105 | `int(str(n)) == n` for every integer |
| Text.ParseIntRejectsForeign | ddcLogs/size_rotating.py:105-106 | a character that is not whitespace, a sign or a digit makes `int()` raise `ValueError` |
| Text.ParseIntKeepsSeparators | ddcLogs/size_rotating.py:105-106 | `int("\x1c5")` raises: U+001C is not whitespace to `int()` |
| Text.ParseIntNeedsDigit | ddcLogs/size_rotating.py:105-106 | a text without a digit makes `int()` raise `ValueError` |
| ArchiveNumbering.ArchiveFieldShape | ddcLogs/size_rotating.py:103-104 | a second `_`-field exists exactly when the part before the first `.` holds a `_`, and the field holds no `_` |
| ArchiveNumbering.Steps | ddcLogs/size_rotating.py:100 | one step per listed name |
| ArchiveNumbering.FirstRaise | ddcLogs/size_rotating.py:106-112 | the first name whose field `int()` rejects: none raise before it, and none at all when there is no such name |
| ArchiveNumbering.LastSet | ddcLogs/size_rotating.py:104-105 | the last name that assigns the number: none assigns after it, and none at all when there is no such name |
| ArchiveNumbering.Scan | ddcLogs/size_rotating.py:98-112 | the scan fails exactly when some step raises, and then at a step that raises |
| ArchiveNumbering.ScanOneMore | ddcLogs/size_rotating.py:100-112 | one more iteration: a raise ends the whole scan with that name, an assignment sets the number, anything else keeps it |
| ArchiveNumbering.NextArchiveNumber | ddcLogs/size_rotating.py:98-112 | the loop computes `ArchiveNumber`: the first malformed matching name raises, else the last numbered match plus one, else 1 |
| ArchiveNumbering.ScanInsertKeep | ddcLogs/size_rotating.py:100-104 | a step that keeps the number changes a scan's outcome only by shifting the position of a raise |
| ArchiveNumbering.KeepStepChangesNothing | ddcLogs/size_rotating.py:100-104 | a name that keeps the number may be inserted anywhere in the listing without changing the result |
| ArchiveNumbering.UnmatchedNameIgnored | ddcLogs/size_rotating.py:101 | a name that does not contain the stem never affects the number |
| ArchiveNumbering.UnnumberedNameIgnored | ddcLogs/size_rotating.py:103-104 | a name with no `_` before its first `.` never affects the number |
| ArchiveNumbering.NoMatchNumbersOne | ddcLogs/size_rotating.py:98-101 | when no listed name contains the stem, the number is 1 |
| ArchiveNumbering.LastNumberedNameDecides | ddcLogs/size_rotating.py:100-105 | with no malformed name, the last matching numbered name gives its field plus one, whatever came before it |
| ArchiveNumbering.MalformedNameRaises | ddcLogs/size_rotating.py:105-112 | a matching name whose field `int()` rejects makes the scan raise, wherever it stands |
| ArchiveNumbering.ArchiveFieldOfArchiveName | ddcLogs/size_rotating.py:103-104 | the second field of `stem_n.log.gz` is `str(n)` when the stem has no `.` or `_` |
| ArchiveNumbering.ArchiveNameSetsNext | ddcLogs/size_rotating.py:101-105 | a matching `base_n.log.gz` sets the number to `n + 1` |
| ArchiveNumbering.EndsInArchiveName | ddcLogs/size_rotating.py:100-105 | a listing that ends in a matching `base_n.log.gz` and does not raise earlier yields `n + 1` |
| ArchiveNumbering.NextAfterArchiveName | ddcLogs/size_rotating.py:100-105 | after archive `n` of this stem, listed last, the next number is `n + 1` |
| ArchiveNumbering.ArchiveFieldOfUnderscoreStem | ddcLogs/size_rotating.py:103 | for a stem `a_b`, the second field of its archive names is `b` |
| ArchiveNumbering.UnderscoreStemRaises | ddcLogs/size_rotating.py:97-112 | for a stem `a_b` whose `b` `int()` rejects, a listing that ends in one of its archives raises |
| ArchiveNumbering.UnderscoreStemFieldDecides | ddcLogs/size_rotating.py:97-105 | for a stem `a_b` whose `b` is the integer `v`, a listing that ends in one of its archives, whatever its number, yields `v + 1` |
| ArchiveNumbering.SubstringMatchCrossesStems | ddcLogs/size_rotating.py:101-105 | `test1` matches `test10_4.log.gz`, which sets the number to 5 |
| ArchiveNumbering.LastNumberNotLargest | ddcLogs/size_rotating.py:100-105 | listing `app_10.log.gz` then `app_9.log.gz` gives 10, the number of an existing archive |
| ArchiveNumbering.UnderscoreStemExample | ddcLogs/size_rotating.py:97-112 | `my_app` cannot rotate once `my_app_1.log.gz` exists |
| ArchiveNumbering.IntegerUnderscoreStemRepeats | ddcLogs/size_rotating.py:97-105 | `app_2` with `app_2_1.log.gz` listed yields 3, and with `app_2_3.log.gz` listed after it yields 3 again, the number of an existing archive |
| SizeRotating.SourceStemIsSplit | ddcLogs/size_rotating.py:97 | the two-name unpacking succeeds exactly when `split(".")` yields two pieces, and the stem is the first |
| SizeRotating.SourceStemShape | ddcLogs/size_rotating.py:97 | an accepted basename is the stem, a `.` and a rest, neither holding `.`; a rejected one is the error raised |
| SizeRotating.SourceStemOfDotted | ddcLogs/size_rotating.py:97 | `stem.rest` with no `.` in either part unpacks to `stem` |
| SizeRotating.PruneFirstNoCompressOnError | ddcLogs/size_rotating.py:94-115 | every call prunes first and only once, does at most one more thing, and never compresses when it raises |
| SizeRotating.MissingOrEmptySourceOnlyPrunes | ddcLogs/size_rotating.py:95-96 | a missing or empty source: prune and nothing else |
| SizeRotating.BadSourceNameRaisesBeforeScan | ddcLogs/size_rotating.py:96-97 | a basename without exactly one `.` raises after pruning and before the listing is read |
| SizeRotating.CompressesExactlyWhen | ddcLogs/size_rotating.py:96-115 | compression happens if and only if the source exists and is non-empty, its name unpacks, the scan does not raise, and the source still exists; it is then the second effect, with the scanned number |
| SizeRotating.MalformedArchiveReportsAndRaises | ddcLogs/size_rotating.py:106-112 | a malformed matching archive is reported on stderr and raised, with no compression |
| SizeRotating.RolloverCompresses | ddcLogs/size_rotating.py:114-115 | when the scan yields `n` and the source is still there, the call prunes and then compresses as `n` |
| SizeRotating.FirstRotationIsNumberOne | ddcLogs/size_rotating.py:98-115 | with no archive of the log listed, the source is compressed as number 1 |
| SizeRotating.NextRotationIncrements | ddcLogs/size_rotating.py:98-115 | when the last listed name is archive `n` of this log, the next rotation compresses as `n + 1` |
| SizeRotating.TestSuiteFirstRotation | tests/test_log.py:29-52 | a 2 MiB `/tmp/test1.log` with no archives becomes archive 1, named `test1_1.log.gz` |
| SizeRotating.Host.RemoveOldLogs | ddcLogs/size_rotating.py:95 | records the pruning call |
| SizeRotating.Host.WriteStderr | ddcLogs/size_rotating.py:107-111 | records the error report naming the archive |
| SizeRotating.Host.GzipFile | ddcLogs/size_rotating.py:115 | records the compression of the source under its number |
| SizeRotating.GZipRotatorSize.constructor | ddcLogs/size_rotating.py:90-92 | stores the directory and the retention in days |
| SizeRotating.GZipRotatorSize.Call | ddcLogs/size_rotating.py:94-115 | the callback performs exactly the effects of `RolloverOf`, in order, and raises its error |
| SizeRotating.Logger.SetLevel | ddcLogs/size_rotating.py:60 | sets the level and keeps the handlers |
| SizeRotating.Logger.AddHandler | ddcLogs/size_rotating.py:80 | appends one handler and keeps the level |
| SizeRotating.SizeRotatingLog.constructor | ddcLogs/size_rotating.py:26-50 | stores every setting as given |
| SizeRotating.SizeRotatingLog.Init | ddcLogs/size_rotating.py:52-86 | sets the level and keeps earlier handlers. It appends one file handler per file name, in order. Each handler has append mode, `maxBytes = max_mbytes * 1048576`, `backupCount = days_to_keep` and a fresh rotator on the same directory and retention. A stream handler is added last when asked for |

## Left out

- `remove_old_logs`, `gzip_file`, `list_files`, `write_stderr`, `get_exception` and `get_stream_handler` are in `ddcLogs/log_utils.py`, which is not part of this model. The first four appear only as effects recorded on a `Host` or as inputs in a `View`. The error message text is reduced to the archive name.
- `check_filename_instance`, `check_directory_permissions`, `get_level`, `get_log_path` and `get_logger_and_formatter` are not part of this model either. Their checks and the exceptions they raise are not modelled. A handler keeps the directory and the file name rather than the joined path. The level is kept as given.
- `os.path.isfile` and `os.stat` are not modelled. Their answers are the fields of `View`. The second `isfile` check is a separate field, because the file can disappear in between.
- `list_files` is assumed to return bare file names, in its own order. The model keeps that order, because the result depends on it.
- `RotatingFileHandler` is not modelled: when it decides to roll over, and how it renames files. The model records only the threshold and backup count it is given.
- Formatters and the `utc`, `datefmt` and `show_location` settings are stored but have no effect in the model.
- `load_dotenv` and the `LogSettings` defaults of the constructor are not modelled. Every setting is a parameter.
- `int()`: `ParseInt` accepts only ASCII digits. Unicode decimal digits and `_` digit separators are not modelled. A field split on `_` can never contain `_` anyway.
- `int()`: the limit of CPython 3.11 and later on the number of digits (4300 by default, above which `int()` raises `ValueError`) is not modelled. `ParseInt` accepts numerals of any length. A field longer than a file name can be does not occur in a listing.
- `os.stat(source)` raising `FileNotFoundError`, when the source disappears between the first `isfile` check and the `stat`, is not modelled. `View` gives the size of a source that is a file at the first check.
- `os.path.basename` is modelled for POSIX paths only.
- The `dest` argument of the callback is accepted and unused, as in the source.
- The time-based rotator and the basic log are outside this model.
