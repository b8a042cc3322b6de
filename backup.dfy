/** What `execute_rename` does to the filesystem and records in its backup
    log, and what the restore loop does with such a log: the two as
    specification functions over the filesystem value, with the round trip
    that the backup log exists for. */
module Backup {
  import opened Paths
  import opened Storage
  import opened Pairing
  import opened Planning

  /** The log record of one planned move and the rename's outcome. */
  function RecordOf(m: Move, err: Option<OsError>): (o: Operation)
    ensures o.oldPath == m.src && o.newPath == m.dst
    ensures o.oldName == m.src.Name() && o.newName == m.dst.Name()
    ensures o.status == Success <==> err.None?
    ensures err.Some? ==> o.status == Error(err.value)
  {
    Operation(m.src.Name(), m.dst.Name(), m.src, m.dst,
      match err case None => Success case Some(e) => Error(e))
  }

  /** The filesystem after a run of renames, and the records of the run. */
  datatype Executed = Executed(fs: Fs, ops: seq<Operation>)

  /** The rename loop of `execute_rename`: every move is tried in plan
      order; a failure is recorded and the loop goes on. */
  function Execute(fs: Fs, plan: seq<Move>, os: Os): (r: Executed)
    ensures |r.ops| == |plan|
    ensures r.fs.dirs == fs.dirs
  {
    if |plan| == 0 then Executed(fs, [])
    else
      var prev := Execute(fs, plan[..|plan| - 1], os);
      var m := plan[|plan| - 1];
      var step := RenameStep(prev.fs, m.src, m.dst, os);
      Executed(step.0, prev.ops + [RecordOf(m, step.1)])
  }

  /** The log holds one record per planned move, in plan order, naming that
      move's paths. */
  lemma {:induction false} ExecuteRecords(fs: Fs, plan: seq<Move>, os: Os)
    ensures forall i :: 0 <= i < |plan| ==>
      && Execute(fs, plan, os).ops[i].oldPath == plan[i].src
      && Execute(fs, plan, os).ops[i].newPath == plan[i].dst
      && Execute(fs, plan, os).ops[i].oldName == plan[i].src.Name()
      && Execute(fs, plan, os).ops[i].newName == plan[i].dst.Name()
  {
    if |plan| > 0 {
      ExecuteRecords(fs, plan[..|plan| - 1], os);
    }
  }

  /** The records of the first k moves are the first k records. */
  lemma {:induction false} ExecutePrefix(fs: Fs, plan: seq<Move>, os: Os, k: nat)
    requires k <= |plan|
    ensures Execute(fs, plan[..k], os).ops == Execute(fs, plan, os).ops[..k]
    decreases |plan|
  {
    if k < |plan| {
      var init := plan[..|plan| - 1];
      ExecutePrefix(fs, init, os, k);
      assert init[..k] == plan[..k];
    } else {
      assert plan[..k] == plan;
    }
  }

  /** A record says success exactly when its rename, tried on the tree the
      earlier renames left, raised nothing, and otherwise carries the error
      it raised. */
  lemma ExecuteStatus(fs: Fs, plan: seq<Move>, os: Os)
    ensures forall i :: 0 <= i < |plan| ==>
      var err := RenameStep(Execute(fs, plan[..i], os).fs, plan[i].src, plan[i].dst, os).1;
      && (Execute(fs, plan, os).ops[i].status == Success <==> err.None?)
      && (err.Some? ==> Execute(fs, plan, os).ops[i].status == Error(err.value))
  {
    forall i | 0 <= i < |plan|
      ensures var err := RenameStep(Execute(fs, plan[..i], os).fs, plan[i].src, plan[i].dst, os).1;
        && (Execute(fs, plan, os).ops[i].status == Success <==> err.None?)
        && (err.Some? ==> Execute(fs, plan, os).ops[i].status == Error(err.value))
    {
      var upto := plan[..i + 1];
      ExecutePrefix(fs, plan, os, i + 1);
      assert upto[..i] == plan[..i] && upto[i] == plan[i];
      assert Execute(fs, upto, os).ops[i] == Execute(fs, plan, os).ops[i];
    }
  }

  /** `successful_renames`: the number of success records. */
  function SuccessCount(ops: seq<Operation>): (n: nat)
    ensures n <= |ops|
  {
    if |ops| == 0 then 0
    else SuccessCount(ops[..|ops| - 1]) + (if ops[|ops| - 1].status == Success then 1 else 0)
  }

  /** Every path a run of moves names, as source or as target. */
  function MovePaths(plan: seq<Move>): set<Path> {
    (set m | m in plan :: m.src) + (set m | m in plan :: m.dst)
  }

  /** Every path a run of records names. */
  function OpPaths(ops: seq<Operation>): set<Path> {
    (set o | o in ops :: o.oldPath) + (set o | o in ops :: o.newPath)
  }

  lemma ExecutePaths(fs: Fs, plan: seq<Move>, os: Os)
    ensures OpPaths(Execute(fs, plan, os).ops) == MovePaths(plan)
  {
    var ops := Execute(fs, plan, os).ops;
    ExecuteRecords(fs, plan, os);
    forall x | x in OpPaths(ops) ensures x in MovePaths(plan) {
      var i :| 0 <= i < |ops| && (ops[i].oldPath == x || ops[i].newPath == x);
      assert plan[i] in plan;
    }
    forall x | x in MovePaths(plan) ensures x in OpPaths(ops) {
      var i :| 0 <= i < |plan| && (plan[i].src == x || plan[i].dst == x);
      assert ops[i] in ops;
    }
  }

  /** Whether two file maps agree about path `x`. */
  ghost predicate SameAt(a: map<Path, Content>, b: map<Path, Content>, x: Path) {
    && (x in a <==> x in b)
    && (x in a ==> a[x] == b[x])
  }

  /** Two trees that agree at every path are the same tree. */
  lemma SameEverywhere(a: map<Path, Content>, b: map<Path, Content>)
    requires forall x :: SameAt(a, b, x)
    ensures a == b
  {
    forall x ensures x in a <==> x in b { assert SameAt(a, b, x); }
    forall x | x in a ensures a[x] == b[x] { assert SameAt(a, b, x); }
  }

  /** In a plan with distinct paths, the last move's paths are none of the
      earlier moves' paths. */
  lemma LastMoveFresh(plan: seq<Move>)
    requires |plan| > 0
    requires DistinctPaths(plan)
    ensures var m := plan[|plan| - 1];
      m.src !in MovePaths(plan[..|plan| - 1]) && m.dst !in MovePaths(plan[..|plan| - 1])
  {
    var q := plan[..|plan| - 1];
    var m := plan[|plan| - 1];
    forall m' | m' in q ensures m'.src != m.src && m'.dst != m.src && m'.src != m.dst && m'.dst != m.dst {
      var i :| 0 <= i < |q| && q[i] == m';
      assert plan[i] == m';
    }
  }

  /** The paths of a plan are those of all but its last move and the last move's two. */
  lemma MovePathsSnoc(plan: seq<Move>)
    requires |plan| > 0
    ensures MovePaths(plan) == MovePaths(plan[..|plan| - 1]) + {plan[|plan| - 1].src, plan[|plan| - 1].dst}
  {
    var init := plan[..|plan| - 1];
    assert plan == init + [plan[|plan| - 1]];
  }

  lemma OpPathsSnoc(ops: seq<Operation>)
    requires |ops| > 0
    ensures OpPaths(ops) == OpPaths(ops[..|ops| - 1]) + {ops[|ops| - 1].oldPath, ops[|ops| - 1].newPath}
  {
    var init := ops[..|ops| - 1];
    assert ops == init + [ops[|ops| - 1]];
  }

  /** The rename loop touches no file the plan does not name. */
  lemma {:induction false} ExecuteFrame(fs: Fs, plan: seq<Move>, os: Os)
    ensures forall x :: x !in MovePaths(plan) ==> SameAt(Execute(fs, plan, os).fs.files, fs.files, x)
  {
    if |plan| > 0 {
      ExecuteFrame(fs, plan[..|plan| - 1], os);
      MovePathsSnoc(plan);
    }
  }

  /** The running state of the restore loop: the filesystem, `restored` and
      `errors`. */
  datatype Restored = Restored(fs: Fs, restored: nat, errors: seq<string>)

  /** One pass of the restore loop: a success record whose new path exists
      is renamed back; a failure adds "name: message" to the errors. */
  function RestoreStep(r: Restored, op: Operation, os: Os): (r': Restored)
    ensures r'.fs.dirs == r.fs.dirs
    ensures |r'.errors| >= |r.errors| && r'.errors[..|r.errors|] == r.errors
    ensures op.status != Success ==> r' == r
    ensures r'.restored + |r'.errors| <= r.restored + |r.errors| + (if op.status == Success then 1 else 0)
    ensures r'.restored >= r.restored
    ensures op.status == Success && !r.fs.Exists(op.newPath) ==> r' == r
    ensures op.status == Success && r.fs.Exists(op.newPath) ==>
      var s := RenameStep(r.fs, op.newPath, op.oldPath, os);
      && (s.1.None? ==> r' == Restored(s.0, r.restored + 1, r.errors))
      && (s.1.Some? ==> r' == Restored(r.fs, r.restored, r.errors + [op.newPath.Name() + ": " + Describe(s.1.value)]))
  {
    if op.status != Success || !r.fs.Exists(op.newPath) then r
    else
      var step := RenameStep(r.fs, op.newPath, op.oldPath, os);
      match step.1
      case None => Restored(step.0, r.restored + 1, r.errors)
      case Some(e) => Restored(r.fs, r.restored, r.errors + [op.newPath.Name() + ": " + Describe(e)])
  }

  /** The restore loop over the records of a backup log, in log order. */
  function Restore(fs: Fs, ops: seq<Operation>, os: Os): (r: Restored)
    ensures r.fs.dirs == fs.dirs
  {
    if |ops| == 0 then Restored(fs, 0, [])
    else RestoreStep(Restore(fs, ops[..|ops| - 1], os), ops[|ops| - 1], os)
  }

  /** Each success record is restored, reported as an error, or skipped,
      and nothing else is counted: at most as many files come back as the
      log reports renamed. */
  lemma {:induction false} RestoreBounded(fs: Fs, ops: seq<Operation>, os: Os)
    ensures Restore(fs, ops, os).restored + |Restore(fs, ops, os).errors| <= SuccessCount(ops)
  {
    if |ops| > 0 {
      RestoreBounded(fs, ops[..|ops| - 1], os);
    }
  }

  /** The restore loop touches no file the log does not name. */
  lemma {:induction false} RestoreFrame(fs: Fs, ops: seq<Operation>, os: Os)
    ensures forall x :: x !in OpPaths(ops) ==> SameAt(Restore(fs, ops, os).fs.files, fs.files, x)
  {
    if |ops| > 0 {
      RestoreFrame(fs, ops[..|ops| - 1], os);
      OpPathsSnoc(ops);
    }
  }

  /** Whether two restore states agree on the counters, the folders and the
      files at the paths in `paths`. */
  ghost predicate AgreeOn(r1: Restored, r2: Restored, paths: set<Path>) {
    && r1.restored == r2.restored
    && r1.errors == r2.errors
    && r1.fs.dirs == r2.fs.dirs
    && forall x :: x in paths ==> SameAt(r1.fs.files, r2.fs.files, x)
  }

  /** One pass of the restore loop only looks at the record's two paths. */
  lemma RestoreStepLocal(r1: Restored, r2: Restored, o: Operation, os: Os, paths: set<Path>)
    requires o.oldPath in paths && o.newPath in paths
    requires AgreeOn(r1, r2, paths)
    ensures AgreeOn(RestoreStep(r1, o, os), RestoreStep(r2, o, os), paths)
  {
    assert SameAt(r1.fs.files, r2.fs.files, o.oldPath);
    assert SameAt(r1.fs.files, r2.fs.files, o.newPath);
  }

  /** The restore loop only looks at the paths its log names: two trees with
      the same folders that agree on those paths are restored alike. */
  lemma {:induction false} RestoreLocal(f1: Fs, f2: Fs, ops: seq<Operation>, os: Os)
    requires f1.dirs == f2.dirs
    requires forall x :: x in OpPaths(ops) ==> SameAt(f1.files, f2.files, x)
    ensures AgreeOn(Restore(f1, ops, os), Restore(f2, ops, os), OpPaths(ops))
  {
    if |ops| > 0 {
      var init := ops[..|ops| - 1];
      OpPathsSnoc(ops);
      RestoreLocal(f1, f2, init, os);
      RestoreFrame(f1, init, os);
      RestoreFrame(f2, init, os);
      RestoreStepLocal(Restore(f1, init, os), Restore(f2, init, os), ops[|ops| - 1], os, OpPaths(ops));
    }
  }

  /** Restoring is idempotent: once no renamed file is left at its new path,
      a restore changes nothing and reports nothing. */
  lemma {:induction false} RestoreNothingLeft(fs: Fs, ops: seq<Operation>, os: Os)
    requires forall o :: o in ops && o.status == Success ==> !fs.Exists(o.newPath)
    ensures Restore(fs, ops, os) == Restored(fs, 0, [])
  {
    if |ops| > 0 {
      var init := ops[..|ops| - 1];
      assert ops[|ops| - 1] in ops;
      RestoreNothingLeft(fs, init, os);
    }
  }

  /** Renaming back is granted wherever the plan renamed. */
  ghost predicate GrantsReverse(plan: seq<Move>, os: Os) {
    forall m :: m in plan ==> os.renameRefusal(m.dst, m.src).None?
  }

  /** The round trip of the backup log: over a real tree, a plan whose moves
      touch every path once and whose targets are free, executed and then
      restored from its records, gives back the tree it started from, with
      every successful rename counted as restored and no errors. */
  lemma RoundTrip(fs: Fs, plan: seq<Move>, os: Os, back: Os)
    requires fs.Valid()
    requires DistinctPaths(plan)
    requires forall m :: m in plan ==> m.dst !in fs.files
    requires GrantsReverse(plan, back)
    ensures var ex := Execute(fs, plan, os);
      && Restore(ex.fs, ex.ops, back).fs == fs
      && Restore(ex.fs, ex.ops, back).restored == SuccessCount(ex.ops)
      && Restore(ex.fs, ex.ops, back).errors == []
  {
    RoundTripAt(fs, plan, os, back);
    var r := Restore(Execute(fs, plan, os).fs, Execute(fs, plan, os).ops, back).fs;
    SameEverywhere(r.files, fs.files);
  }

  /** The last step of the round trip: the tree `e1` is `e0` with one more
      file moved from `o.oldPath` to `o.newPath`; restoring the earlier
      records on `e1` and then this one undoes both. */
  lemma UndoLast(fs: Fs, e0: Fs, e1: Fs, earlier: seq<Operation>, o: Operation, back: Os)
    requires fs.Valid() && e0.dirs == fs.dirs
    requires forall x :: x !in OpPaths(earlier) ==> SameAt(e0.files, fs.files, x)
    requires forall x :: SameAt(Restore(e0, earlier, back).fs.files, fs.files, x)
    requires o.oldPath !in OpPaths(earlier) && o.newPath !in OpPaths(earlier)
    requires o.oldPath in fs.files && o.newPath !in fs.files
    requires o.oldPath in e0.files
    requires e1 == Fs(e0.dirs, (e0.files - {o.oldPath})[o.newPath := e0.files[o.oldPath]])
    requires o.status == Success && back.renameRefusal(o.newPath, o.oldPath).None?
    ensures var r := RestoreStep(Restore(e1, earlier, back), o, back);
      && (forall x :: SameAt(r.fs.files, fs.files, x))
      && r.restored == Restore(e0, earlier, back).restored + 1
      && r.errors == Restore(e0, earlier, back).errors
  {
    var s, t := o.oldPath, o.newPath;
    RestoreLocal(e1, e0, earlier, back);
    RestoreFrame(e1, earlier, back);
    var r0 := Restore(e0, earlier, back);
    var r1 := Restore(e1, earlier, back);
    assert SameAt(r1.fs.files, e1.files, t);
    assert SameAt(e0.files, fs.files, s);
    var r := RestoreStep(r1, o, back);
    assert r.fs.files == (r1.fs.files - {t})[s := fs.files[s]];
    forall x ensures SameAt(r.fs.files, fs.files, x) {
      if x != s && x != t {
        if x in OpPaths(earlier) {
          assert SameAt(r1.fs.files, r0.fs.files, x);
          assert SameAt(r0.fs.files, fs.files, x);
        } else {
          assert SameAt(r1.fs.files, e1.files, x);
          assert SameAt(e0.files, fs.files, x);
        }
      }
    }
  }

  /** The round trip, path by path. */
  lemma {:induction false} RoundTripAt(fs: Fs, plan: seq<Move>, os: Os, back: Os)
    requires fs.Valid()
    requires DistinctPaths(plan)
    requires forall m :: m in plan ==> m.dst !in fs.files
    requires GrantsReverse(plan, back)
    ensures var ex := Execute(fs, plan, os);
      && (forall x :: SameAt(Restore(ex.fs, ex.ops, back).fs.files, fs.files, x))
      && Restore(ex.fs, ex.ops, back).restored == SuccessCount(ex.ops)
      && Restore(ex.fs, ex.ops, back).errors == []
  {
    if |plan| > 0 {
      var q := plan[..|plan| - 1];
      var m := plan[|plan| - 1];
      assert m in plan;
      assert DistinctPaths(q);
      RoundTripAt(fs, q, os, back);
      var exq := Execute(fs, q, os);
      var ex := Execute(fs, plan, os);
      var step := RenameStep(exq.fs, m.src, m.dst, os);
      var o := RecordOf(m, step.1);
      assert ex.ops == exq.ops + [o];
      assert ex.ops[..|ex.ops| - 1] == exq.ops;
      ExecutePaths(fs, q, os);
      ExecuteFrame(fs, q, os);
      LastMoveFresh(plan);
      if step.1.None? {
        assert SameAt(exq.fs.files, fs.files, m.src);
        UndoLast(fs, exq.fs, ex.fs, exq.ops, o, back);
      }
    }
  }

  /** A second restore from the same log after a full round trip finds
      nothing to move back and changes nothing. */
  lemma RestoreTwice(fs: Fs, plan: seq<Move>, os: Os, back: Os)
    requires fs.Valid()
    requires DistinctPaths(plan)
    requires forall m :: m in plan ==> !fs.Exists(m.dst)
    requires GrantsReverse(plan, back)
    ensures var ex := Execute(fs, plan, os);
      var once := Restore(ex.fs, ex.ops, back);
      Restore(once.fs, ex.ops, back) == Restored(once.fs, 0, [])
  {
    RoundTrip(fs, plan, os, back);
    ExecuteRecords(fs, plan, os);
    var ex := Execute(fs, plan, os);
    forall o | o in ex.ops ensures !fs.Exists(o.newPath) {
      var i :| 0 <= i < |ex.ops| && ex.ops[i] == o;
      assert plan[i] in plan;
    }
    RestoreNothingLeft(fs, ex.ops, back);
  }

  /** The round trip with the backup log written after the renames: the
      restore puts every renamed file back and leaves the log in place,
      provided the log's path is not one the plan moves. */
  lemma LogRoundTrip(fs: Fs, plan: seq<Move>, os: Os, back: Os, logPath: Path, log: Content)
    requires fs.Valid()
    requires DistinctPaths(plan)
    requires forall m :: m in plan ==> m.dst !in fs.files
    requires GrantsReverse(plan, back)
    requires logPath !in MovePaths(plan)
    ensures var ex := Execute(fs, plan, os);
      var r := Restore(Fs(ex.fs.dirs, ex.fs.files[logPath := log]), ex.ops, back);
      && r.fs == Fs(fs.dirs, fs.files[logPath := log])
      && r.restored == SuccessCount(ex.ops)
      && r.errors == []
  {
    var ex := Execute(fs, plan, os);
    var f := Fs(ex.fs.dirs, ex.fs.files[logPath := log]);
    ExecutePaths(fs, plan, os);
    ExecuteFrame(fs, plan, os);
    RoundTripAt(fs, plan, os, back);
    RestoreLocal(f, ex.fs, ex.ops, back);
    RestoreFrame(f, ex.ops, back);
    var r := Restore(f, ex.ops, back);
    var r0 := Restore(ex.fs, ex.ops, back);
    var want := fs.files[logPath := log];
    forall x ensures SameAt(r.fs.files, want, x) {
      if x in MovePaths(plan) {
        assert SameAt(r.fs.files, r0.fs.files, x);
        assert SameAt(r0.fs.files, fs.files, x);
      } else {
        assert SameAt(r.fs.files, f.files, x);
      }
    }
    SameEverywhere(r.fs.files, want);
  }

  /** Two RAW files planned onto one target: both renames succeed, the
      second replaces the first file, and a restore from the log brings back
      one file, under the first name and with the second file's content. */
  lemma SharedTargetLosesFile()
    ensures var dir := Path("/", ["raw"]);
      var a, b, w := dir.Join("IMG_1.CR2"), dir.Join("IMG_2.CR2"), dir.Join("W.CR2");
      var fs := Fs({dir}, map[a := Image(1), b := Image(2)]);
      var os := Os((x, y) => None, x => None);
      var ex := Execute(fs, [Move(a, w), Move(b, w)], os);
      var r := Restore(ex.fs, ex.ops, os);
      && fs.Valid()
      && SuccessCount(ex.ops) == 2
      && ex.fs.files == map[w := Image(2)]
      && r.fs.files == map[a := Image(2)]
      && r.restored == 1 && r.errors == []
  {
    var dir := Path("/", ["raw"]);
    var a, b, w := dir.Join("IMG_1.CR2"), dir.Join("IMG_2.CR2"), dir.Join("W.CR2");
    var fs := Fs({dir}, map[a := Image(1), b := Image(2)]);
    var os := Os((x, y) => None, x => None);
    assert a.Name() != w.Name() && b.Name() != w.Name() && a.Name() != b.Name();
    assert a != w && b != w && a != b;
    var plan := [Move(a, w), Move(b, w)];
    assert plan[..1] == [Move(a, w)];
    assert plan[..1][..0] == [];
    var e0 := Execute(fs, [], os);
    var e1 := Execute(fs, plan[..1], os);
    assert RenameStep(fs, a, w, os).1 == None;
    assert e1.fs.files == (fs.files - {a})[w := Image(1)];
    assert e1.fs.files == map[b := Image(2), w := Image(1)];
    var ex := Execute(fs, plan, os);
    assert RenameStep(e1.fs, b, w, os).1 == None;
    assert ex.fs.files == (e1.fs.files - {b})[w := Image(2)];
    assert ex.fs.files == map[w := Image(2)];
    assert ex.ops == e1.ops + [RecordOf(Move(b, w), None)];
    assert ex.ops[..1] == e1.ops;
    assert ex.ops[..1][..0] == [];
    var r0 := Restore(ex.fs, [], os);
    var r1 := Restore(ex.fs, ex.ops[..1], os);
    assert ex.ops[0].status == Success && ex.ops[0].newPath == w && ex.ops[0].oldPath == a;
    assert RenameStep(ex.fs, w, a, os).1 == None;
    assert r1.fs.files == (ex.fs.files - {w})[a := Image(2)];
    assert r1.fs.files == map[a := Image(2)];
    assert !r1.fs.Exists(w);
  }

  /** The corrected planner restores cleanly: with one move per target, a
      plan from distinct existing RAW files, executed and restored, gives
      back the tree it started from. */
  lemma CorrectedPlanRoundTrip(fs: Fs, pairs: seq<Pair>, os: Os, back: Os)
    requires fs.Valid()
    requires RawsDistinct(pairs)
    requires forall p :: p in pairs ==> p.raw in fs.files
    requires GrantsReverse(PlanForDistinct(fs, pairs), back)
    ensures var ex := Execute(fs, PlanForDistinct(fs, pairs), os);
      && Restore(ex.fs, ex.ops, back).fs == fs
      && Restore(ex.fs, ex.ops, back).restored == SuccessCount(ex.ops)
      && Restore(ex.fs, ex.ops, back).errors == []
  {
    PlanForDistinctIsDistinct(fs, pairs);
    PlanSafe(fs, pairs);
    RoundTrip(fs, PlanForDistinct(fs, pairs), os, back);
  }

  /** A clock reading as `strftime("%Y%m%d_%H%M%S")` writes it: digits and
      underscores only, so the log name stays one path component. */
  type Stamp = s: string | forall i :: 0 <= i < |s| ==> s[i] in "0123456789_" witness ""

  /** `f"rename_backup_{timestamp}.json"` */
  function LogName(stamp: Stamp): (name: string)
    ensures SuffixOf(name) == LogSuffix
    ensures forall i :: 0 <= i < |name| ==> name[i] != '/'
  {
    var name := "rename_backup_" + stamp + LogSuffix;
    StemSuffixOfJoined("rename_backup_" + stamp, LogSuffix);
    name
  }

  /** The decimal digits of `n`, as `str(n)` writes them. */
  function NatToString(n: nat): (s: string)
    ensures |s| > 0
    ensures forall i :: 0 <= i < |s| ==> '0' <= s[i] <= '9'
  {
    if n < 10 then ["0123456789"[n]] else NatToString(n / 10) + ["0123456789"[n % 10]]
  }

  /** The number a string of decimal digits denotes. */
  function DigitsValue(s: string): nat
    requires forall i :: 0 <= i < |s| ==> '0' <= s[i] <= '9'
  {
    if |s| == 0 then 0 else DigitsValue(s[..|s| - 1]) * 10 + (s[|s| - 1] as int - '0' as int)
  }

  /** The count in the message reads back as the count. */
  lemma {:induction false} NatToStringValue(n: nat)
    ensures DigitsValue(NatToString(n)) == n
  {
    if n >= 10 {
      NatToStringValue(n / 10);
      var s := NatToString(n);
      assert s[..|s| - 1] == NatToString(n / 10);
    }
  }

  /** How many restore errors the summary lists. */
  const ShownErrors: nat := 5

  /** The summary of a restore: the count, the errors it lists and how many
      more it only counts. */
  datatype Summary = Summary(restored: nat, shown: seq<string>, hidden: nat)

  /** `errors[:5]` and `len(errors) - 5`: the first five errors are listed
      in order, and the rest are counted. */
  function Summarize(restored: nat, errors: seq<string>): (s: Summary)
    ensures s.restored == restored
    ensures |s.shown| <= ShownErrors && |s.shown| <= |errors|
    ensures s.shown == errors[..|s.shown|]
    ensures |s.shown| + s.hidden == |errors|
    ensures s.hidden > 0 ==> |s.shown| == ShownErrors
  {
    if |errors| <= ShownErrors then Summary(restored, errors, 0)
    else Summary(restored, errors[..ShownErrors], |errors| - ShownErrors)
  }

  function JoinLines(lines: seq<string>): string {
    if |lines| == 0 then ""
    else if |lines| == 1 then lines[0]
    else JoinLines(lines[..|lines| - 1]) + "\n" + lines[|lines| - 1]
  }

  /** `text.split("\n")`: the lines of a text, one more than it has
      newlines; the reference the message's layout is stated against. */
  function SplitLines(text: string): (lines: seq<string>)
    ensures |lines| > 0
  {
    if |text| == 0 then [""]
    else AddChar(SplitLines(text[..|text| - 1]), text[|text| - 1])
  }

  /** One more character starts a new line or extends the last one. */
  function AddChar(lines: seq<string>, c: char): (r: seq<string>)
    requires |lines| > 0
    ensures |r| > 0
  {
    if c == '\n' then lines + [""] else lines[..|lines| - 1] + [lines[|lines| - 1] + [c]]
  }

  /** One more character only touches the lines after the first ones. */
  lemma AddCharAfter(front: seq<string>, back: seq<string>, c: char)
    requires |back| > 0
    ensures AddChar(front + back, c) == front + AddChar(back, c)
  {
    if c != '\n' {
      var both := front + back;
      assert both[..|both| - 1] == front + back[..|back| - 1];
    }
  }

  lemma SplitSnoc(text: string, c: char)
    ensures SplitLines(text + [c]) == AddChar(SplitLines(text), c)
  {
    assert (text + [c])[..|text|] == text;
  }

  /** A text without a newline is one line. */
  lemma {:induction false} SplitOneLine(line: string)
    requires '\n' !in line
    ensures SplitLines(line) == [line]
  {
    if |line| > 0 {
      var init := line[..|line| - 1];
      assert '\n' !in init by {
        forall i | 0 <= i < |init| ensures init[i] != '\n' { assert init[i] == line[i]; }
      }
      SplitOneLine(init);
      assert init + [line[|line| - 1]] == line;
    }
  }

  /** Splitting at a newline splits the two sides apart. */
  lemma {:induction false} SplitAtNewline(a: string, b: string)
    ensures SplitLines(a + "\n" + b) == SplitLines(a) + SplitLines(b)
  {
    if |b| == 0 {
      assert a + "\n" + b == a + ['\n'];
      SplitSnoc(a, '\n');
    } else {
      var init := b[..|b| - 1];
      var c := b[|b| - 1];
      SplitAtNewline(a, init);
      assert a + "\n" + b == (a + "\n" + init) + [c];
      assert init + [c] == b;
      SplitSnoc(a + "\n" + init, c);
      SplitSnoc(init, c);
      AddCharAfter(SplitLines(a), SplitLines(init), c);
    }
  }

  /** `"\n".join(lines)` splits back into `lines` when no line holds a
      newline itself. */
  lemma {:induction false} SplitJoined(lines: seq<string>)
    requires |lines| > 0
    requires forall k :: 0 <= k < |lines| ==> '\n' !in lines[k]
    ensures SplitLines(JoinLines(lines)) == lines
  {
    if |lines| == 1 {
      SplitOneLine(lines[0]);
    } else {
      var init := lines[..|lines| - 1];
      SplitJoined(init);
      SplitAtNewline(JoinLines(init), lines[|lines| - 1]);
      SplitOneLine(lines[|lines| - 1]);
      assert init + [lines[|lines| - 1]] == lines;
    }
  }

  function Headline(restored: nat): string {
    "Obnoveno " + NatToString(restored) + " souborů"
  }

  /** The text of the "Obnova dokončena" dialog. */
  function RestoreMessage(s: Summary): (text: string)
    ensures Headline(s.restored) <= text
    ensures |s.shown| == 0 <==> text == Headline(s.restored)
  {
    if |s.shown| == 0 then Headline(s.restored)
    else
      Headline(s.restored) + "\n\nChyby:\n" + JoinLines(s.shown)
        + (if s.hidden > 0 then "\n" + MoreErrorsLine(s.hidden) else "")
  }

  /** The line `... a dalších N chyb` that counts the errors not listed. */
  function MoreErrorsLine(hidden: nat): string {
    "... a dalších " + NatToString(hidden) + " chyb"
  }

  /** Decimal digits hold no newline. */
  lemma DigitsOneLine(n: nat)
    ensures '\n' !in NatToString(n)
  {
    var d := NatToString(n);
    forall i | 0 <= i < |d| ensures d[i] != '\n' { }
  }

  /** The headline and the count line are single lines. */
  lemma CountLinesOneLine(restored: nat, hidden: nat)
    ensures SplitLines(Headline(restored)) == [Headline(restored)]
    ensures SplitLines(MoreErrorsLine(hidden)) == [MoreErrorsLine(hidden)]
  {
    DigitsOneLine(restored);
    DigitsOneLine(hidden);
    SplitOneLine(Headline(restored));
    SplitOneLine(MoreErrorsLine(hidden));
  }

  /** A line, a blank line, a title line and then the listed errors, one
      per line. */
  lemma ListedErrorsLines(h: string, title: string, shown: seq<string>)
    requires SplitLines(h) == [h] && SplitLines(title) == [title]
    requires |shown| > 0
    requires forall k :: 0 <= k < |shown| ==> '\n' !in shown[k]
    ensures SplitLines(h + "\n" + ("" + "\n" + title) + "\n" + JoinLines(shown)) == [h, "", title] + shown
  {
    var head := h + "\n" + ("" + "\n" + title);
    assert SplitLines(head) == [h, "", title] by {
      SplitOneLine("");
      SplitAtNewline("", title);
      SplitAtNewline(h, "" + "\n" + title);
    }
    SplitJoined(shown);
    SplitAtNewline(head, JoinLines(shown));
  }

  /** A text followed by a newline and one more line. */
  lemma LastLine(body: string, line: string)
    requires SplitLines(line) == [line]
    ensures SplitLines(body + ("\n" + line)) == SplitLines(body) + [line]
  {
    SplitAtNewline(body, line);
    assert body + ("\n" + line) == body + "\n" + line;
  }

  /** The message text regrouped line by line. */
  lemma ErrorsText(h: string, j: string, tail: string)
    ensures h + "\n\nChyby:\n" + j + tail == ((h + "\n" + ("" + "\n" + "Chyby:")) + "\n" + j) + tail
  {
    assert "\n\nChyby:\n" == "\n" + ("" + "\n" + "Chyby:") + "\n";
  }

  /** The dialog's lines: the headline alone when no error is listed;
      otherwise the headline, a blank line, "Chyby:", the listed errors one
      per line and in order, and the count of the others exactly when there
      are others. Stated for error texts without a newline of their own. */
  lemma MessageLines(s: Summary)
    requires forall k :: 0 <= k < |s.shown| ==> '\n' !in s.shown[k]
    ensures SplitLines(RestoreMessage(s)) ==
      if |s.shown| == 0 then [Headline(s.restored)]
      else [Headline(s.restored), "", "Chyby:"] + s.shown + (if s.hidden > 0 then [MoreErrorsLine(s.hidden)] else [])
  {
    var h := Headline(s.restored);
    var more := MoreErrorsLine(s.hidden);
    CountLinesOneLine(s.restored, s.hidden);
    if |s.shown| > 0 {
      var head := h + "\n" + ("" + "\n" + "Chyby:");
      var j := JoinLines(s.shown);
      var body := head + "\n" + j;
      var tail := if s.hidden > 0 then "\n" + more else "";
      SplitOneLine("Chyby:");
      ListedErrorsLines(h, "Chyby:", s.shown);
      assert RestoreMessage(s) == body + tail by {
        ErrorsText(h, j, tail);
      }
      if s.hidden > 0 {
        LastLine(body, more);
      } else {
        assert body + tail == body;
      }
    }
  }
}
