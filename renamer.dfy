/** `FileRenamerCore`: the two folders, the threshold and the lists that
    scanning and pairing fill, with each operation's loops proved against
    the specification functions of the other modules; and the restore loop
    of the GUI's "restore from backup" action. */
module Renamer {
  import opened Paths
  import opened Storage
  import opened Selection
  import opened Hashing
  import opened Scanning
  import opened Pairing
  import opened Planning
  import opened Backup

  const DefaultSimilarityThreshold: int := 5

  /** Why `scan_files` raises. */
  datatype ScanError =
    | RawFolderMissing(folder: Path)   // FileNotFoundError "RAW složka … neexistuje."
    | JpgFolderMissing(folder: Path)   // FileNotFoundError "JPG složka … neexistuje."
    | NotAFolder(folder: Path)         // NotADirectoryError from `iterdir()`

  datatype ScanResult = Scanned(raws: nat, jpgs: nat) | ScanFailed(error: ScanError)

  /** What `execute_rename` returns, or the error with which writing the
      backup log fails after the renames have been done. */
  datatype ExecuteResult = Done(successes: nat, logPath: Path) | LogWriteFailed(error: OsError)

  /** The outcome of a restore: the loop's counters and the dialog text, or
      a log that cannot be read as one. */
  datatype RestoreResult = RestoreDone(restored: nat, errors: seq<string>, message: string) | LoadFailed

  /** The facts about a pair that scanning and pairing establish and later
      steps rely on: a RAW file of the RAW folder, a JPG with a suffix, and a
      distance within the threshold. */
  ghost predicate PairFits(p: Pair, rawFolder: Path, threshold: int) {
    && p.raw.Parent() == rawFolder
    && Lower(p.raw.Suffix()) in RawExtensions
    && p.jpg.Suffix() != []
    && p.distance <= threshold
  }

  class FileRenamerCore {
    const rawFolder: Path
    const jpgFolder: Path
    const threshold: int
    var rawFiles: seq<Path>
    var jpgFiles: seq<Path>
    var pairs: seq<Pair>
    var logFile: Option<Path>

    /** The lists hold what scanning and pairing can produce. A later scan
        does not reset `pairs`, so the pairs are not tied to the current
        lists, only to the folder and the threshold. */
    ghost predicate Valid()
      reads this
    {
      && NoDups(rawFiles) && NoDups(jpgFiles)
      && (forall p :: p in rawFiles ==> p.Parent() == rawFolder && Lower(p.Suffix()) in RawExtensions)
      && (forall p :: p in jpgFiles ==> p.Parent() == jpgFolder && Lower(p.Suffix()) in JpgExtensions)
      && RawsDistinct(pairs)
      && (forall p :: p in pairs ==> PairFits(p, rawFolder, threshold))
    }

    constructor (rawFolder: Path, jpgFolder: Path, threshold: int)
      ensures this.rawFolder == rawFolder && this.jpgFolder == jpgFolder && this.threshold == threshold
      ensures rawFiles == [] && jpgFiles == [] && pairs == [] && logFile == None
      ensures Valid()
    {
      this.rawFolder := rawFolder;
      this.jpgFolder := jpgFolder;
      this.threshold := threshold;
      rawFiles := [];
      jpgFiles := [];
      pairs := [];
      logFile := None;
    }

    /** The constructor called without `similarity_threshold`. */
    constructor WithDefaultThreshold(rawFolder: Path, jpgFolder: Path)
      ensures this.rawFolder == rawFolder && this.jpgFolder == jpgFolder
      ensures threshold == DefaultSimilarityThreshold
      ensures rawFiles == [] && jpgFiles == [] && pairs == [] && logFile == None
      ensures Valid()
    {
      this.rawFolder := rawFolder;
      this.jpgFolder := jpgFolder;
      threshold := DefaultSimilarityThreshold;
      rawFiles := [];
      jpgFiles := [];
      pairs := [];
      logFile := None;
    }

    /** `scan_files`: both lists are reset, each folder must exist, and then
        each folder's listing is filtered in listing order, RAW first.
        `rawListing` and `jpgListing` are what `iterdir()` yields. */
    method ScanFiles(fs: Fs, rawListing: seq<Path>, jpgListing: seq<Path>) returns (r: ScanResult)
      requires Valid()
      requires rawFolder in fs.dirs ==> IsListing(fs, rawFolder, rawListing)
      requires jpgFolder in fs.dirs ==> IsListing(fs, jpgFolder, jpgListing)
      modifies this`rawFiles, this`jpgFiles
      ensures Valid()
      ensures !fs.Exists(rawFolder) ==> r == ScanFailed(RawFolderMissing(rawFolder)) && rawFiles == [] && jpgFiles == []
      ensures fs.Exists(rawFolder) && !fs.Exists(jpgFolder) ==>
        r == ScanFailed(JpgFolderMissing(jpgFolder)) && rawFiles == [] && jpgFiles == []
      ensures fs.Exists(rawFolder) && fs.Exists(jpgFolder) && rawFolder !in fs.dirs ==>
        r == ScanFailed(NotAFolder(rawFolder)) && rawFiles == [] && jpgFiles == []
      ensures rawFolder in fs.dirs && fs.Exists(jpgFolder) ==> rawFiles == Classify(fs, rawListing, RawExtensions)
      ensures rawFolder in fs.dirs && fs.Exists(jpgFolder) && jpgFolder !in fs.dirs ==>
        r == ScanFailed(NotAFolder(jpgFolder)) && jpgFiles == []
      ensures rawFolder in fs.dirs && jpgFolder in fs.dirs ==>
        && jpgFiles == Classify(fs, jpgListing, JpgExtensions)
        && r == Scanned(|rawFiles|, |jpgFiles|)
    {
      rawFiles := [];
      jpgFiles := [];
      if !fs.Exists(rawFolder) {
        return ScanFailed(RawFolderMissing(rawFolder));
      }
      if !fs.Exists(jpgFolder) {
        return ScanFailed(JpgFolderMissing(jpgFolder));
      }
      if rawFolder !in fs.dirs {
        return ScanFailed(NotAFolder(rawFolder));
      }
      ClassifyFolder(fs, rawFolder, rawListing, RawExtensions);
      for i := 0 to |rawListing|
        invariant rawFiles == Classify(fs, rawListing[..i], RawExtensions)
        invariant jpgFiles == []
      {
        assert rawListing[..i + 1][..i] == rawListing[..i];
        var p := rawListing[i];
        if p in fs.files && Lower(p.Suffix()) in RawExtensions {
          rawFiles := rawFiles + [p];
        }
      }
      assert rawListing[..|rawListing|] == rawListing;
      if jpgFolder !in fs.dirs {
        return ScanFailed(NotAFolder(jpgFolder));
      }
      ClassifyFolder(fs, jpgFolder, jpgListing, JpgExtensions);
      for i := 0 to |jpgListing|
        invariant jpgFiles == Classify(fs, jpgListing[..i], JpgExtensions)
        invariant rawFiles == Classify(fs, rawListing, RawExtensions)
      {
        assert jpgListing[..i + 1][..i] == jpgListing[..i];
        var p := jpgListing[i];
        if p in fs.files && Lower(p.Suffix()) in JpgExtensions {
          jpgFiles := jpgFiles + [p];
        }
      }
      assert jpgListing[..|jpgListing|] == jpgListing;
      return Scanned(|rawFiles|, |jpgFiles|);
    }

    /** `find_pairs`: hash every JPG, then give each RAW file that hashes the
        first closest JPG within the threshold. `events` are the progress
        callbacks, one per file. */
    method FindPairs(fs: Fs, decode: Content -> Option<Fingerprint>) returns (result: seq<Pair>, events: seq<Progress>)
      requires Valid()
      modifies this`pairs
      ensures Valid()
      ensures pairs == PairsFor(fs, decode, rawFiles, Candidates(fs, decode, jpgFiles), threshold)
      ensures result == pairs
      ensures IsProgressRun(events, jpgFiles, rawFiles, |jpgFiles| + |rawFiles|)
    {
      var jpgs, raws := jpgFiles, rawFiles;
      pairs := [];
      var cands: seq<Candidate> := [];
      var total := |jpgs| + |raws|;
      var processed := 0;
      events := [];
      for i := 0 to |jpgs|
        invariant cands == Candidates(fs, decode, jpgs[..i])
        invariant pairs == []
        invariant processed == i
        invariant IsProgressRun(events, jpgs, raws, processed)
      {
        CandidatesStep(fs, decode, jpgs, i);
        ProgressStep(events, jpgs, raws, processed);
        var h := HashOf(fs, decode, jpgs[i]);
        if h.Some? {
          cands := cands + [Candidate(jpgs[i], h.value)];
        }
        processed := processed + 1;
        events := events + [Progress(processed, total, JpgLabel(jpgs[i]))];
      }
      assert jpgs[..|jpgs|] == jpgs;
      for i := 0 to |raws|
        invariant pairs == PairsFor(fs, decode, raws[..i], cands, threshold)
        invariant processed == |jpgs| + i
        invariant IsProgressRun(events, jpgs, raws, processed)
      {
        PairsForStep(fs, decode, raws, i, cands, threshold);
        ProgressStep(events, jpgs, raws, processed);
        var raw := raws[i];
        var h := HashOf(fs, decode, raw);
        processed := processed + 1;
        events := events + [Progress(processed, total, RawLabel(raw))];
        var best: Option<nat> := None;
        if h.Some? {
          best := BestMatchIn(h.value, cands, threshold);
          if best.Some? {
            pairs := pairs + [Pair(raw, cands[best.value].jpg, Distance(h.value, cands[best.value].fp))];
          }
        }
        MatchStep(fs, decode, raw, cands, threshold, h, best);
      }
      assert raws[..|raws|] == raws;
      PairsFit(fs, decode, raws, jpgs, threshold, rawFolder);
      result := pairs;
    }

    /** The loop of `generate_rename_plan`, over the pairs in order. */
    method GenerateRenamePlan(fs: Fs) returns (plan: seq<Move>)
      ensures plan == PlanFor(fs, pairs)
    {
      plan := [];
      for i := 0 to |pairs|
        invariant plan == PlanFor(fs, pairs[..i])
      {
        var p := pairs[i];
        PlanStep(fs, pairs, i);
        var t := TargetFor(p);
        if fs.Exists(t) && t != p.raw {
          continue;
        }
        if p.raw != t {
          plan := plan + [Move(p.raw, t)];
        }
      }
      assert pairs[..|pairs|] == pairs;
    }

    /** `execute_rename`: the log's path is fixed first, every move of the
        plan is tried and recorded, and the log is written beside the RAW
        files. `stamp` and `isoTime` stand for the two readings of the
        clock. */
    method ExecuteRename(fs: FileSystem, plan: seq<Move>, os: Os, stamp: Stamp, isoTime: string) returns (r: ExecuteResult)
      modifies this`logFile, fs
      ensures logFile == Some(rawFolder.Join(LogName(stamp)))
      ensures var ex := Execute(old(fs.State()), plan, os);
        var written := WriteStep(ex.fs, rawFolder.Join(LogName(stamp)), Log(BackupLog(isoTime, rawFolder, jpgFolder, ex.ops)), os);
        && fs.State() == written.0
        && r == (match written.1
                 case None => Done(SuccessCount(ex.ops), rawFolder.Join(LogName(stamp)))
                 case Some(e) => LogWriteFailed(e))
    {
      var logPath := rawFolder.Join(LogName(stamp));
      logFile := Some(logPath);
      var ops: seq<Operation> := [];
      var successes := 0;
      for i := 0 to |plan|
        invariant Execute(old(fs.State()), plan[..i], os) == Executed(fs.State(), ops)
        invariant logFile == Some(logPath)
        invariant successes == SuccessCount(ops)
      {
        assert plan[..i + 1][..i] == plan[..i];
        var err := fs.Rename(plan[i].src, plan[i].dst, os);
        var op := RecordOf(plan[i], err);
        ops := ops + [op];
        assert ops[..|ops| - 1] == ops[..i];
        if err.None? {
          successes := successes + 1;
        }
      }
      assert plan[..|plan|] == plan;
      var err := fs.Write(logPath, Log(BackupLog(isoTime, rawFolder, jpgFolder, ops)), os);
      if err.Some? {
        return LogWriteFailed(err.value);
      }
      return Done(successes, logPath);
    }
  }

  /** The inner loop of `find_pairs`: a candidate replaces the best so far
      when it is strictly closer and within the threshold. */
  method BestMatchIn(fp: Fingerprint, cands: seq<Candidate>, threshold: int) returns (best: Option<nat>)
    ensures best == BestMatch(fp, cands, threshold)
  {
    best := None;
    var bestDistance := 0;
    for i := 0 to |cands|
      invariant best.None? ==> forall j :: 0 <= j < i ==> Distance(fp, cands[j].fp) > threshold
      invariant best.Some? ==> IsFirstClosest(fp, cands[..i], best.value, threshold)
      invariant best.Some? ==> bestDistance == Distance(fp, cands[best.value].fp)
    {
      var d := Distance(fp, cands[i].fp);
      if (best.None? || d < bestDistance) && d <= threshold {
        best := Some(i);
        bestDistance := d;
      }
    }
    assert cands[..|cands|] == cands;
    if best.Some? {
      FirstClosestUnique(fp, cands, best.value, threshold);
    }
  }

  /** `jpg_hashes` grows by the next JPG's entry, if it hashes. */
  lemma CandidatesStep(fs: Fs, decode: Content -> Option<Fingerprint>, jpgs: seq<Path>, i: nat)
    requires i < |jpgs|
    ensures Candidates(fs, decode, jpgs[..i + 1]) == Candidates(fs, decode, jpgs[..i]) +
      (match HashOf(fs, decode, jpgs[i]) case Some(h) => [Candidate(jpgs[i], h)] case None => [])
  {
    assert jpgs[..i + 1][..i] == jpgs[..i];
  }

  /** What one pass of the RAW loop appends, in terms of the file's hash and
      the inner loop's result. */
  lemma MatchStep(fs: Fs, decode: Content -> Option<Fingerprint>, raw: Path, cands: seq<Candidate>, threshold: int,
                  h: Option<Fingerprint>, best: Option<nat>)
    requires h == HashOf(fs, decode, raw)
    requires h.Some? ==> best == BestMatch(h.value, cands, threshold)
    requires h.None? ==> best.None?
    ensures best.Some? ==> best.value < |cands| && h.Some?
    ensures MatchFor(fs, decode, raw, cands, threshold) ==
      if best.Some? then Some(Pair(raw, cands[best.value].jpg, Distance(h.value, cands[best.value].fp))) else None
  {
  }

  /** `self.pairs` grows by the next RAW file's match, if it has one. */
  lemma PairsForStep(fs: Fs, decode: Content -> Option<Fingerprint>, raws: seq<Path>, i: nat, cands: seq<Candidate>, threshold: int)
    requires i < |raws|
    ensures PairsFor(fs, decode, raws[..i + 1], cands, threshold) == PairsFor(fs, decode, raws[..i], cands, threshold) +
      (match MatchFor(fs, decode, raws[i], cands, threshold) case Some(p) => [p] case None => [])
  {
    assert raws[..i + 1][..i] == raws[..i];
  }

  /** The plan grows by the next pair's move, if it passes both checks. */
  lemma PlanStep(fs: Fs, pairs: seq<Pair>, i: nat)
    requires i < |pairs|
    ensures PlanFor(fs, pairs[..i + 1]) == PlanFor(fs, pairs[..i]) + (if Planned(fs, pairs[i]) then [MoveFor(pairs[i])] else [])
  {
    var pre := pairs[..i];
    assert pairs[..i + 1] == pre + [pairs[i]];
    PlanForSnoc(fs, pre, pairs[i]);
  }

  /** One more progress callback, for the next file in JPG-then-RAW order. */
  lemma ProgressStep(events: seq<Progress>, jpgs: seq<Path>, raws: seq<Path>, count: nat)
    requires IsProgressRun(events, jpgs, raws, count)
    requires count < |jpgs| + |raws|
    ensures IsProgressRun(events + [Progress(count + 1, |jpgs| + |raws|, LabelAt(jpgs, raws, count))], jpgs, raws, count + 1)
  {
  }

  /** One pair's fit, from the RAW file's scan facts and the candidate it names. */
  lemma PairFitsOne(fs: Fs, decode: Content -> Option<Fingerprint>, raw: Path, jpgs: seq<Path>,
                    cands: seq<Candidate>, threshold: int, rawFolder: Path)
    requires cands == Candidates(fs, decode, jpgs)
    requires raw.Parent() == rawFolder && Lower(raw.Suffix()) in RawExtensions
    requires forall p :: p in jpgs ==> Lower(p.Suffix()) in JpgExtensions
    requires MatchFor(fs, decode, raw, cands, threshold).Some?
    ensures PairFits(MatchFor(fs, decode, raw, cands, threshold).value, rawFolder, threshold)
  {
    CandidatesMembers(fs, decode, jpgs);
    var h := HashOf(fs, decode, raw).value;
    var k := BestMatch(h, cands, threshold).value;
    assert cands[k] in cands;
    assert Lower(cands[k].jpg.Suffix()) in JpgExtensions;
  }

  /** Pairs made from scanned lists fit the RAW folder and the threshold,
      with one pair per RAW file. */
  lemma PairsFit(fs: Fs, decode: Content -> Option<Fingerprint>, raws: seq<Path>, jpgs: seq<Path>,
                 threshold: int, rawFolder: Path)
    requires NoDups(raws)
    requires forall p :: p in raws ==> p.Parent() == rawFolder && Lower(p.Suffix()) in RawExtensions
    requires forall p :: p in jpgs ==> Lower(p.Suffix()) in JpgExtensions
    ensures var ps := PairsFor(fs, decode, raws, Candidates(fs, decode, jpgs), threshold);
      && RawsDistinct(ps)
      && forall p :: p in ps ==> PairFits(p, rawFolder, threshold)
  {
    var cands := Candidates(fs, decode, jpgs);
    var ps := PairsFor(fs, decode, raws, cands, threshold);
    PairsOnePerRaw(fs, decode, raws, cands, threshold);
    PairsMembers(fs, decode, raws, cands, threshold);
    forall p | p in ps ensures PairFits(p, rawFolder, threshold) {
      PairFitsOne(fs, decode, p.raw, jpgs, cands, threshold, rawFolder);
    }
  }

  /** A path with a RAW file's suffix is never the backup log. */
  lemma NotTheLog(p: Path, rawFolder: Path, stamp: Stamp)
    requires Lower(p.Suffix()) in RawExtensions
    ensures p != rawFolder.Join(LogName(stamp))
  {
    var log := rawFolder.Join(LogName(stamp));
    assert log.Suffix() == LogSuffix;
    assert Lower(LogSuffix) == LogSuffix;
  }

  /** The backup log never lands on a path the plan moves: sources and
      targets keep a RAW suffix, the log's is `.json`. */
  lemma LogPathOutsidePlan(fs: Fs, pairs: seq<Pair>, rawFolder: Path, threshold: int, stamp: Stamp)
    requires forall p :: p in pairs ==> PairFits(p, rawFolder, threshold)
    ensures rawFolder.Join(LogName(stamp)) !in MovePaths(PlanFor(fs, pairs))
  {
    var plan := PlanFor(fs, pairs);
    var logPath := rawFolder.Join(LogName(stamp));
    PlanMembers(fs, pairs);
    forall m | m in plan ensures m.src != logPath && m.dst != logPath {
      var p :| p in pairs && Planned(fs, p) && m == MoveFor(p);
      MoveNotTheLog(p, rawFolder, threshold, stamp);
    }
  }

  lemma MoveNotTheLog(p: Pair, rawFolder: Path, threshold: int, stamp: Stamp)
    requires PairFits(p, rawFolder, threshold)
    ensures MoveFor(p).src != rawFolder.Join(LogName(stamp))
    ensures MoveFor(p).dst != rawFolder.Join(LogName(stamp))
  {
    assert p.raw.Suffix() != [];
    TargetShape(p);
    NotTheLog(p.raw, rawFolder, stamp);
    NotTheLog(TargetFor(p), rawFolder, stamp);
  }

  /** The whole session as the program runs it, when the plan's targets
      happen to be distinct: rename by plan, write the log, restore from it;
      every file is back and the log stays. */
  lemma SessionRoundTrip(fs: Fs, pairs: seq<Pair>, rawFolder: Path, threshold: int, stamp: Stamp, log: Content, os: Os, back: Os)
    requires fs.Valid()
    requires RawsDistinct(pairs)
    requires forall p :: p in pairs ==> PairFits(p, rawFolder, threshold) && p.raw in fs.files
    requires TargetsDistinct(PlanFor(fs, pairs))
    requires GrantsReverse(PlanFor(fs, pairs), back)
    ensures var logPath := rawFolder.Join(LogName(stamp));
      var ex := Execute(fs, PlanFor(fs, pairs), os);
      Restore(Fs(ex.fs.dirs, ex.fs.files[logPath := log]), ex.ops, back) ==
        Restored(Fs(fs.dirs, fs.files[logPath := log]), SuccessCount(ex.ops), [])
  {
    PlanDistinctWhenTargetsAre(fs, pairs);
    PlanSafe(fs, pairs);
    LogPathOutsidePlan(fs, pairs, rawFolder, threshold, stamp);
    LogRoundTrip(fs, PlanFor(fs, pairs), os, back, rawFolder.Join(LogName(stamp)), log);
  }

  /** The same session with the corrected planner needs no assumption about
      the JPG stems. */
  lemma CorrectedSessionRoundTrip(fs: Fs, pairs: seq<Pair>, rawFolder: Path, threshold: int, stamp: Stamp, log: Content, os: Os, back: Os)
    requires fs.Valid()
    requires RawsDistinct(pairs)
    requires forall p :: p in pairs ==> PairFits(p, rawFolder, threshold) && p.raw in fs.files
    requires GrantsReverse(PlanForDistinct(fs, pairs), back)
    ensures var logPath := rawFolder.Join(LogName(stamp));
      var ex := Execute(fs, PlanForDistinct(fs, pairs), os);
      Restore(Fs(ex.fs.dirs, ex.fs.files[logPath := log]), ex.ops, back) ==
        Restored(Fs(fs.dirs, fs.files[logPath := log]), SuccessCount(ex.ops), [])
  {
    var plan := PlanForDistinct(fs, pairs);
    var logPath := rawFolder.Join(LogName(stamp));
    PlanForDistinctIsDistinct(fs, pairs);
    PlanSafe(fs, pairs);
    LogPathOutsidePlan(fs, pairs, rawFolder, threshold, stamp);
    assert logPath !in MovePaths(plan) by {
      forall m | m in plan ensures m.src != logPath && m.dst != logPath {
        assert m in PlanFor(fs, pairs);
      }
    }
    LogRoundTrip(fs, plan, os, back, logPath, log);
  }

  /** The restore loop of `restore_backup` over the log file `backupFile`:
      a file that is not a backup log is refused as a whole; otherwise every
      success record whose new path exists is renamed back, and the dialog
      text reports the count and the first five errors. */
  method RestoreBackup(fs: FileSystem, backupFile: Path, os: Os) returns (r: RestoreResult)
    modifies fs
    ensures backupFile !in old(fs.files) || !old(fs.files)[backupFile].Log? ==> r == LoadFailed && fs.State() == old(fs.State())
    ensures backupFile in old(fs.files) && old(fs.files)[backupFile].Log? ==>
      var res := Restore(old(fs.State()), old(fs.files)[backupFile].log.operations, os);
      && fs.State() == res.fs
      && r == RestoreDone(res.restored, res.errors, RestoreMessage(Summarize(res.restored, res.errors)))
  {
    if backupFile !in fs.files || !fs.files[backupFile].Log? {
      return LoadFailed;
    }
    var ops := fs.files[backupFile].log.operations;
    ghost var start := fs.State();
    var restored := 0;
    var errors: seq<string> := [];
    for i := 0 to |ops|
      invariant Restore(start, ops[..i], os) == Restored(fs.State(), restored, errors)
    {
      assert ops[..i + 1][..i] == ops[..i];
      var op := ops[i];
      if op.status == Success {
        if fs.State().Exists(op.newPath) {
          var err := fs.Rename(op.newPath, op.oldPath, os);
          if err.None? {
            restored := restored + 1;
          } else {
            errors := errors + [op.newPath.Name() + ": " + Describe(err.value)];
          }
        }
      }
    }
    assert ops[..|ops|] == ops;
    return RestoreDone(restored, errors, RestoreMessage(Summarize(restored, errors)));
  }
}
