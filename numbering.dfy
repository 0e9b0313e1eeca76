/**
  How `GZipRotatorSize.__call__` (ddcLogs/size_rotating.py) picks the number of the
  next `.gz` archive of a log file: it walks the listing of `.gz` names in order and,
  for every name that contains the log's stem, cuts the name at its first `.`, splits
  that on `_` and, when there are at least two fields, takes the second field plus one
  as the new number. A second field that `int()` rejects aborts the whole call.

  The declarative specification `ArchiveNumber` says the same thing without a loop:
  the first malformed matching name raises; otherwise the LAST matching numbered name
  decides; otherwise the number is 1. `NextArchiveNumber` is the loop, proved to
  compute it.
 */
module ArchiveNumbering {
  import opened Wrappers
  import opened Text

  /** The two ways a rotation raises. */
  datatype RotateError =
    | BadSourceName(basename: string)   // `stem, _ = basename.split(".")` cannot unpack
    | BadArchiveNumber(gzFile: string)  // `int()` rejects a matching archive's second field

  /** The second `_`-field of the part of `gzFile` before its first `.`, when there is one. */
  function ArchiveField(gzFile: string): Option<string>
  {
    var fields := Split(Split(gzFile, '.')[0], '_');
    if |fields| > 1 then Some(fields[1]) else None
  }

  /** There is a second field exactly when the part before the first `.` holds a `_`; it holds none. */
  lemma ArchiveFieldShape(gzFile: string)
    ensures ArchiveField(gzFile).Some? <==> '_' in Split(gzFile, '.')[0]
    ensures ArchiveField(gzFile).Some? ==> '_' !in ArchiveField(gzFile).value
  {
    SplitPieces(Split(gzFile, '.')[0], '_');
  }

  /**
    The name the compressor gives archive `n` of a log whose stem is `stem`: `stem_n.log.gz`.
    (The compressor itself is not part of this model; the name is the one the tests expect.)
   */
  function ArchiveName(stem: string, n: int): string
  {
    stem + "_" + IntToString(n) + ".log.gz"
  }

  /** The listing entry takes part in the scan: the stem occurs in it as a substring. */
  predicate Matches(stem: string, gzFile: string)
  {
    Contains(gzFile, stem)
  }

  /** What one listed name does to the number being computed. */
  datatype Step =
    | Keep           // not matching, or no second `_`-field: the number stays
    | SetTo(n: int)  // the number becomes `n`
    | Raise          // `int()` rejects the second field: the call raises

  /** The effect of one listed name on the scan. */
  function Classify(stem: string, gzFile: string): Step
  {
    if !Matches(stem, gzFile) then Keep
    else match ArchiveField(gzFile)
      case None => Keep
      case Some(field) =>
        match ParseInt(field)
        case None => Raise
        case Some(v) => SetTo(v + 1)
  }

  /** The steps of a whole listing, in listing order. */
  function Steps(stem: string, names: seq<string>): (steps: seq<Step>)
    ensures |steps| == |names|
  {
    if |names| == 0 then []
    else Steps(stem, names[..|names| - 1]) + [Classify(stem, names[|names| - 1])]
  }

  lemma StepsSnoc(stem: string, names: seq<string>, x: string)
    ensures Steps(stem, names + [x]) == Steps(stem, names) + [Classify(stem, x)]
  {
    assert (names + [x])[..|names|] == names;
  }

  lemma {:induction false} StepAt(stem: string, names: seq<string>, j: nat)
    requires j < |names|
    ensures Steps(stem, names)[j] == Classify(stem, names[j])
  {
    if j < |names| - 1 {
      var init := names[..|names| - 1];
      StepAt(stem, init, j);
    }
  }

  /** The steps of a prefix of the listing are the prefix of its steps. */
  lemma StepsPrefix(stem: string, names: seq<string>, n: nat)
    requires n <= |names|
    ensures Steps(stem, names)[..n] == Steps(stem, names[..n])
  {
    forall j | 0 <= j < n
      ensures Steps(stem, names)[j] == Steps(stem, names[..n])[j]
    {
      StepAt(stem, names, j);
      StepAt(stem, names[..n], j);
    }
  }

  /** The index of the first step that raises, if any. */
  function FirstRaise(steps: seq<Step>): (r: Option<nat>)
    ensures r.None? <==> forall j :: 0 <= j < |steps| ==> !steps[j].Raise?
    ensures r.Some? ==> r.value < |steps| && steps[r.value].Raise?
    ensures r.Some? ==> forall j :: 0 <= j < r.value ==> !steps[j].Raise?
  {
    if |steps| == 0 then None
    else
      match FirstRaise(steps[..|steps| - 1])
      case Some(i) => Some(i)
      case None => if steps[|steps| - 1].Raise? then Some(|steps| - 1) else None
  }

  /** The index of the last step that sets the number, if any. */
  function LastSet(steps: seq<Step>): (r: Option<nat>)
    ensures r.None? <==> forall j :: 0 <= j < |steps| ==> !steps[j].SetTo?
    ensures r.Some? ==> r.value < |steps| && steps[r.value].SetTo?
    ensures r.Some? ==> forall j :: r.value < j < |steps| ==> !steps[j].SetTo?
  {
    if |steps| == 0 then None
    else if steps[|steps| - 1].SetTo? then Some(|steps| - 1)
    else LastSet(steps[..|steps| - 1])
  }

  /**
    The outcome of a sequence of steps: the index of the first step that raises; else
    the number set by the last step that sets one; else 1.
   */
  function Scan(steps: seq<Step>): (r: Result<int, nat>)
    ensures r.Failure? <==> exists j :: 0 <= j < |steps| && steps[j].Raise?
    ensures r.Failure? ==> r.error < |steps| && steps[r.error].Raise?
  {
    match FirstRaise(steps)
    case Some(i) => Failure(i)
    case None =>
      match LastSet(steps)
      case None => Success(1)
      case Some(k) => Success(steps[k].n)
  }

  /** One more step extends the outcome of a scan that has not raised. */
  lemma ScanSnoc(steps: seq<Step>, x: Step)
    requires Scan(steps).Success?
    ensures Scan(steps + [x]) ==
      match x
      case Keep => Scan(steps)
      case SetTo(n) => Success(n)
      case Raise => Failure(|steps|)
  {
    var s := steps + [x];
    assert s[..|s| - 1] == steps;
  }

  /** Once a prefix of the steps raises, the whole sequence raises at the same index. */
  lemma ScanPrefixRaises(steps: seq<Step>, n: nat)
    requires n <= |steps|
    requires Scan(steps[..n]).Failure?
    ensures Scan(steps) == Scan(steps[..n])
  {
    var p := steps[..n];
    var i := FirstRaise(p).value;
    assert p[i] == steps[i];
    var k := FirstRaise(steps).value;
  }

  /**
    The number the scan of `GZipRotatorSize.__call__` yields for the listing `names`:
    an error naming the first matching entry whose second field is not an integer; else
    the second field of the last matching entry that has one, plus one; else 1.
   */
  function ArchiveNumber(stem: string, names: seq<string>): (r: Result<int, RotateError>)
  {
    match Scan(Steps(stem, names))
    case Failure(i) => Failure(BadArchiveNumber(names[i]))
    case Success(n) => Success(n)
  }

  /**
    The body of the scan for one listed name: does the name contain the stem, and if
    so, what is the second `_`-field of its part before the first `.`, and is it an
    integer.
   */
  method ReadEntry(stem: string, gzFile: string) returns (step: Step)
    ensures step == Classify(stem, gzFile)
  {
    step := Keep;
    if Contains(gzFile, stem) {
      var fields := Split(Split(gzFile, '.')[0], '_');
      if |fields| > 1 {
        var parsed := ParseInt(fields[1]);
        if parsed.None? {
          step := Raise;
        } else {
          step := SetTo(parsed.value + 1);
        }
      }
    }
  }

  /** One more listed name, from the point of view of the loop: the outcome of its step. */
  lemma ScanOneMore(stem: string, names: seq<string>, i: nat, number: int, step: Step)
    requires i < |names| && step == Classify(stem, names[i])
    requires Scan(Steps(stem, names[..i])) == Success(number)
    ensures step.Raise? ==> ArchiveNumber(stem, names) == Failure(BadArchiveNumber(names[i]))
    ensures step.SetTo? ==> Scan(Steps(stem, names[..i + 1])) == Success(step.n)
    ensures step.Keep? ==> Scan(Steps(stem, names[..i + 1])) == Success(number)
  {
    assert names[..i + 1] == names[..i] + [names[i]];
    StepsSnoc(stem, names[..i], names[i]);
    ScanSnoc(Steps(stem, names[..i]), step);
    if step.Raise? {
      StepsPrefix(stem, names, i + 1);
      ScanPrefixRaises(Steps(stem, names), i + 1);
    }
  }

  /**
    The loop of `GZipRotatorSize.__call__`: start at 1; for each listed name that
    contains the stem, overwrite the number with its second `_`-field plus one, and
    raise when that field is not an integer.
   */
  method NextArchiveNumber(stem: string, gzFiles: seq<string>) returns (r: Result<int, RotateError>)
    ensures r == ArchiveNumber(stem, gzFiles)
  {
    var number := 1;
    var i := 0;
    while i < |gzFiles|
      invariant 0 <= i <= |gzFiles|
      invariant Scan(Steps(stem, gzFiles[..i])) == Success(number)
    {
      var gzFile := gzFiles[i];
      var step := ReadEntry(stem, gzFile);
      ScanOneMore(stem, gzFiles, i, number, step);
      match step {
        case Raise =>
          return Failure(BadArchiveNumber(gzFile));
        case SetTo(n) =>
          number := n;
        case Keep =>
      }
      i := i + 1;
    }
    assert gzFiles[..i] == gzFiles;
    return Success(number);
  }

  // ---------------------------------------------------------------------------
  // Properties of the scan

  /** Where a sequence with a `Keep` inserted at `|a|` agrees with the sequence without it. */
  lemma InsertKeepIndices(a: seq<Step>, b: seq<Step>)
    ensures |a + [Keep] + b| == |a + b| + 1 && (a + [Keep] + b)[|a|] == Keep
    ensures forall j :: 0 <= j < |a| ==> (a + [Keep] + b)[j] == (a + b)[j]
    ensures forall j :: |a| < j < |a + [Keep] + b| ==> (a + [Keep] + b)[j] == (a + b)[j - 1]
  {
  }

  /** Inserting a `Keep` step shifts the first raise past the insertion point, and nothing else. */
  lemma FirstRaiseInsertKeep(a: seq<Step>, b: seq<Step>)
    ensures FirstRaise(a + [Keep] + b) ==
      match FirstRaise(a + b)
      case None => None
      case Some(i) => Some(if i < |a| then i else i + 1)
  {
    var long, short := a + [Keep] + b, a + b;
    InsertKeepIndices(a, b);
    match FirstRaise(short)
    case Some(i) =>
      var i' := if i < |a| then i else i + 1;
      assert long[i'] == short[i];
      var k := FirstRaise(long).value;
      if k < |a| {
        assert short[k].Raise?;
      } else if k > |a| {
        assert short[k - 1].Raise?;
      }
    case None =>
      forall j | 0 <= j < |long| ensures !long[j].Raise? {
        if j > |a| { assert long[j] == short[j - 1]; }
      }
  }

  /** Inserting a `Keep` step shifts the last step that sets past the insertion point, and nothing else. */
  lemma LastSetInsertKeep(a: seq<Step>, b: seq<Step>)
    ensures LastSet(a + [Keep] + b) ==
      match LastSet(a + b)
      case None => None
      case Some(i) => Some(if i < |a| then i else i + 1)
  {
    var long, short := a + [Keep] + b, a + b;
    InsertKeepIndices(a, b);
    match LastSet(short)
    case Some(i) =>
      var i' := if i < |a| then i else i + 1;
      assert long[i'] == short[i];
      var k := LastSet(long).value;
      if k < |a| {
        assert short[k].SetTo?;
      } else if k > |a| {
        assert short[k - 1].SetTo?;
      }
    case None =>
      forall j | 0 <= j < |long| ensures !long[j].SetTo? {
        if j > |a| { assert long[j] == short[j - 1]; }
      }
  }

  /** Inserting a `Keep` step changes the outcome of a scan only by shifting the index of a raise. */
  lemma ScanInsertKeep(a: seq<Step>, b: seq<Step>)
    ensures Scan(a + [Keep] + b) ==
      match Scan(a + b)
      case Success(n) => Success(n)
      case Failure(i) => Failure(if i < |a| then i else i + 1)
  {
    var long, short := a + [Keep] + b, a + b;
    FirstRaiseInsertKeep(a, b);
    LastSetInsertKeep(a, b);
    InsertKeepIndices(a, b);
    if FirstRaise(short).None? && LastSet(short).Some? {
      var i := LastSet(short).value;
      assert long[if i < |a| then i else i + 1] == short[i];
    }
  }

  /** With no step raising, the last step that sets the number decides it. */
  lemma ScanLastSetDecides(steps: seq<Step>, k: nat)
    requires k < |steps| && steps[k].SetTo?
    requires forall j :: 0 <= j < |steps| ==> !steps[j].Raise?
    requires forall j :: k < j < |steps| ==> steps[j] == Keep
    ensures Scan(steps) == Success(steps[k].n)
  {
  }

  /** The steps of a concatenated listing are the concatenated steps. */
  lemma {:induction false} StepsAppend(stem: string, a: seq<string>, b: seq<string>)
    ensures Steps(stem, a + b) == Steps(stem, a) + Steps(stem, b)
  {
    if |b| > 0 {
      var init := b[..|b| - 1];
      StepsAppend(stem, a, init);
      assert a + b == (a + init) + [b[|b| - 1]];
      assert b == init + [b[|b| - 1]];
      StepsSnoc(stem, a + init, b[|b| - 1]);
      StepsSnoc(stem, init, b[|b| - 1]);
    } else {
      assert a + b == a;
    }
  }

  /** Every step of a listing is the classification of the name at the same position. */
  lemma StepsAre(stem: string, names: seq<string>)
    ensures forall j :: 0 <= j < |names| ==> Steps(stem, names)[j] == Classify(stem, names[j])
  {
    forall j | 0 <= j < |names| ensures Steps(stem, names)[j] == Classify(stem, names[j]) {
      StepAt(stem, names, j);
    }
  }

  /** Inserting a name whose step is `Keep` anywhere in the listing changes nothing. */
  lemma KeepStepChangesNothing(stem: string, pre: seq<string>, x: string, post: seq<string>)
    requires Classify(stem, x) == Keep
    ensures ArchiveNumber(stem, pre + [x] + post) == ArchiveNumber(stem, pre + post)
  {
    var long, short := pre + [x] + post, pre + post;
    StepsAppend(stem, pre + [x], post);
    StepsSnoc(stem, pre, x);
    StepsAppend(stem, pre, post);
    ScanInsertKeep(Steps(stem, pre), Steps(stem, post));
    if Scan(Steps(stem, short)).Failure? {
      var i := Scan(Steps(stem, short)).error;
      assert short[i] == long[if i < |pre| then i else i + 1];
    }
  }

  /** A listed name that does not contain the stem never affects the number. */
  lemma UnmatchedNameIgnored(stem: string, pre: seq<string>, x: string, post: seq<string>)
    requires !Contains(x, stem)
    ensures ArchiveNumber(stem, pre + [x] + post) == ArchiveNumber(stem, pre + post)
  {
    KeepStepChangesNothing(stem, pre, x, post);
  }

  /**
    A matching name whose part before the first `.` has no `_` has no second field
    and leaves the number as it was.
   */
  lemma UnnumberedNameIgnored(stem: string, pre: seq<string>, x: string, post: seq<string>)
    requires '_' !in Split(x, '.')[0]
    ensures ArchiveNumber(stem, pre + [x] + post) == ArchiveNumber(stem, pre + post)
  {
    ArchiveFieldShape(x);
    KeepStepChangesNothing(stem, pre, x, post);
  }

  /** When no listed name contains the stem, the new archive is number 1. */
  lemma NoMatchNumbersOne(stem: string, names: seq<string>)
    requires forall j :: 0 <= j < |names| ==> !Contains(names[j], stem)
    ensures ArchiveNumber(stem, names) == Success(1)
  {
    StepsAre(stem, names);
  }

  /**
    With no malformed name in the listing, the number is the second field plus one of
    the LAST matching name that has a second field, whatever came before it.
   */
  lemma LastNumberedNameDecides(stem: string, names: seq<string>, k: nat, v: int)
    requires k < |names|
    requires forall j :: 0 <= j < |names| ==> Classify(stem, names[j]) != Raise
    requires Contains(names[k], stem)
    requires ArchiveField(names[k]).Some? && ParseInt(ArchiveField(names[k]).value) == Some(v)
    requires forall j :: k < j < |names| ==> Classify(stem, names[j]) == Keep
    ensures ArchiveNumber(stem, names) == Success(v + 1)
  {
    var steps := Steps(stem, names);
    StepsAre(stem, names);
    assert steps[k] == SetTo(v + 1);
    assert forall j :: 0 <= j < |steps| ==> !steps[j].Raise?;
    assert forall j :: k < j < |steps| ==> steps[j] == Keep;
    ScanLastSetDecides(steps, k);
  }

  /**
    A matching name whose second `_`-field `int()` rejects makes the whole scan raise,
    wherever it stands in the listing.
   */
  lemma MalformedNameRaises(stem: string, pre: seq<string>, x: string, post: seq<string>)
    requires Contains(x, stem)
    requires ArchiveField(x).Some? && ParseInt(ArchiveField(x).value).None?
    ensures ArchiveNumber(stem, pre + [x] + post).Failure?
    ensures ArchiveNumber(stem, pre + [x] + post).error.BadArchiveNumber?
  {
    var names := pre + [x] + post;
    StepAt(stem, names, |pre|);
    assert names[|pre|] == x;
  }

  /** The second field of `stem_n.log.gz` is the decimal text of `n`, when the stem has no `.` or `_`. */
  lemma ArchiveFieldOfArchiveName(stem: string, n: int)
    requires '.' !in stem && '_' !in stem
    ensures ArchiveField(ArchiveName(stem, n)) == Some(IntToString(n))
  {
    var digits := IntToString(n);
    assert '.' !in digits && '_' !in digits;
    var head := stem + "_" + digits;
    assert '.' !in head;
    assert ArchiveName(stem, n) == head + ['.'] + "log.gz";
    SplitAfterFirst(head, '.', "log.gz");
    assert head == stem + ['_'] + digits;
    SplitAfterFirst(stem, '_', digits);
    SplitWithoutSeparator(digits, '_');
  }

  /**
    Reading back an archive name: a matching `stem_n.log.gz` sets the number to
    `n + 1`.
   */
  lemma ArchiveNameSetsNext(stem: string, base: string, n: int)
    requires '.' !in base && '_' !in base
    requires Contains(ArchiveName(base, n), stem)
    ensures Classify(stem, ArchiveName(base, n)) == SetTo(n + 1)
  {
    ArchiveFieldOfArchiveName(base, n);
    IntToStringRoundTrip(n);
  }

  /**
    A listing that ends in a matching archive name `base_n.log.gz`, and whose earlier
    names do not raise, yields `n + 1`.
   */
  lemma EndsInArchiveName(stem: string, base: string, names: seq<string>, n: int)
    requires '.' !in base && '_' !in base
    requires Contains(ArchiveName(base, n), stem)
    requires ArchiveNumber(stem, names).Success?
    ensures ArchiveNumber(stem, names + [ArchiveName(base, n)]) == Success(n + 1)
  {
    ArchiveNameSetsNext(stem, base, n);
    StepsSnoc(stem, names, ArchiveName(base, n));
    ScanSnoc(Steps(stem, names), SetTo(n + 1));
  }

  /**
    Rotating after archive `n` was listed last: the stem occurs in its own archive
    name, so the next number is `n + 1`.
   */
  lemma NextAfterArchiveName(stem: string, names: seq<string>, n: int)
    requires '.' !in stem && '_' !in stem
    requires ArchiveNumber(stem, names).Success?
    ensures ArchiveNumber(stem, names + [ArchiveName(stem, n)]) == Success(n + 1)
  {
    assert ArchiveName(stem, n)[..|stem|] == stem;
    EndsInArchiveName(stem, stem, names, n);
  }

  /** For a stem `a_b`, the second `_`-field of its archive names is `b`. */
  lemma ArchiveFieldOfUnderscoreStem(a: string, b: string, n: int)
    requires '_' !in a && '_' !in b && '.' !in a && '.' !in b
    ensures ArchiveField(ArchiveName(a + "_" + b, n)) == Some(b)
  {
    var digits := IntToString(n);
    assert '.' !in digits && '_' !in digits;
    var head := a + "_" + b + "_" + digits;
    assert '.' !in head;
    assert ArchiveName(a + "_" + b, n) == head + ['.'] + "log.gz";
    SplitAfterFirst(head, '.', "log.gz");
    assert head == a + ['_'] + (b + ['_'] + digits);
    SplitAfterFirst(a, '_', b + ['_'] + digits);
    SplitAfterFirst(b, '_', digits);
  }

  /**
    A stem holding `_` breaks numbering: once an archive of it exists, its second
    `_`-field is the part of the stem after the `_`, which is not an integer.
   */
  lemma UnderscoreStemRaises(a: string, b: string, names: seq<string>, n: int)
    requires '_' !in a && '_' !in b && '.' !in a && '.' !in b
    requires ParseInt(b).None?
    ensures ArchiveNumber(a + "_" + b, names + [ArchiveName(a + "_" + b, n)]).Failure?
  {
    var stem := a + "_" + b;
    var name := ArchiveName(stem, n);
    ArchiveFieldOfUnderscoreStem(a, b, n);
    assert name[..|stem|] == stem;
    MalformedNameRaises(stem, names, name, []);
    assert names + [name] + [] == names + [name];
  }

  /**
    A stem `a_b` whose `b` IS an integer `v` does not raise but is stuck: every listing
    that ends in one of its own archives, whatever that archive's number, yields `v + 1`.
   */
  lemma UnderscoreStemFieldDecides(a: string, b: string, names: seq<string>, n: int, v: int)
    requires '_' !in a && '_' !in b && '.' !in a && '.' !in b
    requires ParseInt(b) == Some(v)
    requires ArchiveNumber(a + "_" + b, names).Success?
    ensures ArchiveNumber(a + "_" + b, names + [ArchiveName(a + "_" + b, n)]) == Success(v + 1)
  {
    var stem := a + "_" + b;
    var name := ArchiveName(stem, n);
    ArchiveFieldOfUnderscoreStem(a, b, n);
    assert name[..|stem|] == stem;
    assert Classify(stem, name) == SetTo(v + 1);
    StepsSnoc(stem, names, name);
    ScanSnoc(Steps(stem, names), SetTo(v + 1));
  }

  // ---------------------------------------------------------------------------
  // Worked listings (stated for names equal to the literals, which keeps the
  // verifier from evaluating every function on them)

  /** Matching is by substring: `test1` also matches `test10_4.log.gz`, whose field gives 5. */
  lemma SubstringMatchCrossesStems(stem: string, base: string, name: string)
    requires stem == "test1" && base == stem + "0" && name == base + "_4.log.gz"
    ensures Contains(name, stem)
    ensures ArchiveNumber(stem, [name]) == Success(5)
  {
    assert name == ArchiveName(base, 4) by {
      assert IntToString(4) == "4";
    }
    assert name[..|stem|] == stem;
    EndsInArchiveName(stem, base, [], 4);
    assert [] + [name] == [name];
  }

  /**
    The last numbered name wins, not the largest: with `app_10.log.gz` listed before
    `app_9.log.gz` the next number is 10, the number of an archive that already exists.
   */
  lemma LastNumberNotLargest(stem: string, ten: string, nine: string)
    requires stem == "app" && ten == "app_10.log.gz" && nine == "app_9.log.gz"
    ensures ArchiveNumber(stem, [ten, nine]) == Success(10)
    ensures ten == ArchiveName(stem, 10)
  {
    assert ten == ArchiveName(stem, 10) by {
      assert IntToString(10) == "10";
    }
    assert nine == ArchiveName(stem, 9) by {
      assert IntToString(9) == "9";
    }
    NextAfterArchiveName(stem, [], 10);
    assert [] + [ten] == [ten];
    NextAfterArchiveName(stem, [ten], 9);
    assert [ten] + [nine] == [ten, nine];
  }

  /** A log named `my_app.log` cannot rotate twice: its first archive makes the scan raise. */
  lemma UnderscoreStemExample(stem: string, name: string)
    requires stem == "my_app" && name == "my_app_1.log.gz"
    ensures ArchiveNumber(stem, [name]).Failure?
  {
    assert IntToString(1) == "1";
    assert stem == "my" + "_" + "app";
    assert name == ArchiveName(stem, 1);
    assert IsForeign("app"[0]);
    ParseIntRejectsForeign("app", 0);
    UnderscoreStemRaises("my", "app", [], 1);
    assert [] + [name] == [name];
  }

  /** The names of the next example are archives 1 and 3 of `app_2`, whose field `2` is an integer. */
  lemma IntegerStemNames(a: string, b: string, first: string, third: string)
    requires a == "app" && b == "2"
    requires first == a + "_" + b + "_1.log.gz" && third == a + "_" + b + "_3.log.gz"
    ensures first == ArchiveName(a + "_" + b, 1) && third == ArchiveName(a + "_" + b, 3)
    ensures ParseInt(b) == Some(2)
  {
    assert IntToString(1) == "1" && IntToString(3) == "3";
    IntToStringRoundTrip(2);
    assert IntToString(2) == b;
  }

  /**
    A log named `app_2.log` rotates as archive 1, then as 3, and then as 3 again: with
    `app_2_1.log.gz` and `app_2_3.log.gz` listed, the next number is 3, an archive that
    already exists.
   */
  lemma IntegerUnderscoreStemRepeats(a: string, b: string, first: string, third: string)
    requires a == "app" && b == "2"
    requires first == a + "_" + b + "_1.log.gz" && third == a + "_" + b + "_3.log.gz"
    ensures ArchiveNumber(a + "_" + b, [first]) == Success(3)
    ensures ArchiveNumber(a + "_" + b, [first, third]) == Success(3)
    ensures third == ArchiveName(a + "_" + b, 3)
  {
    IntegerStemNames(a, b, first, third);
    UnderscoreStemFieldDecides(a, b, [], 1, 2);
    assert [] + [first] == [first];
    UnderscoreStemFieldDecides(a, b, [first], 3, 2);
    assert [first] + [third] == [first, third];
  }


}
