/** `generate_rename_plan`: each pair becomes a move of the RAW file to the
    JPG's stem with the RAW file's own suffix, in the RAW file's folder,
    unless that changes nothing or the target is already taken on disk. */
module Planning {
  import opened Paths
  import opened Storage
  import opened Scanning
  import opened Pairing
  import opened Selection

  /** One entry of the rename plan: (raw_file, new_raw_path). */
  datatype Move = Move(src: Path, dst: Path)

  /** `raw_file.parent / (jpg_file.stem + raw_file.suffix)` */
  function TargetFor(p: Pair): (t: Path)
    ensures t.Parent() == p.raw.Parent()
    ensures t.Name() == p.jpg.Stem() + p.raw.Suffix()
  {
    p.raw.Parent().Join(p.jpg.Stem() + p.raw.Suffix())
  }

  /** For a RAW file and a JPG that both have a suffix (every scanned file
      does), the target keeps the RAW file's suffix, case included, and takes
      the JPG's stem. */
  lemma TargetShape(p: Pair)
    requires p.raw.Suffix() != [] && p.jpg.Suffix() != []
    ensures TargetFor(p).Suffix() == p.raw.Suffix()
    ensures TargetFor(p).Stem() == p.jpg.Stem()
  {
    StemOfSuffixed(p.jpg.Name());
    SuffixShape(p.raw.Name());
    StemSuffixOfJoined(p.jpg.Stem(), p.raw.Suffix());
  }

  function MoveFor(p: Pair): Move {
    Move(p.raw, TargetFor(p))
  }

  /** The two checks of the loop body, in their order: skip a target that
      exists and is not the RAW file itself, then skip a no-op. */
  predicate Planned(fs: Fs, p: Pair): (b: bool)
    ensures b <==> !fs.Exists(TargetFor(p)) && p.raw != TargetFor(p)
  {
    var t := TargetFor(p);
    if fs.Exists(t) && t != p.raw then false
    else p.raw != t
  }

  function MovesOf(ps: seq<Pair>): (ms: seq<Move>)
    ensures |ms| == |ps|
  {
    seq(|ps|, i requires 0 <= i < |ps| => MoveFor(ps[i]))
  }

  /** The plan built from `pairs` over the filesystem as it is at planning
      time: the moves of the pairs that pass both checks, in pair order. */
  function PlanFor(fs: Fs, pairs: seq<Pair>): (plan: seq<Move>)
    ensures |plan| <= |pairs|
  {
    MovesOf(Select(pairs, p => Planned(fs, p)))
  }

  /** One more pair adds its move to the end of the plan, or nothing. */
  lemma PlanForSnoc(fs: Fs, pairs: seq<Pair>, p: Pair)
    ensures PlanFor(fs, pairs + [p]) == PlanFor(fs, pairs) + (if Planned(fs, p) then [MoveFor(p)] else [])
  {
    var keep := (q: Pair) => Planned(fs, q);
    assert (pairs + [p])[..|pairs|] == pairs;
    var prev := Select(pairs, keep);
    if keep(p) {
      assert MovesOf(prev + [p]) == MovesOf(prev) + [MoveFor(p)];
    }
  }

  /** The plan is the order-preserving selection of exactly the pairs that
      pass both checks: move k comes from pair Origin[k], the origins
      increase, and every pair that passes has its move in the plan. */
  lemma PlanIsSelection(fs: Fs, pairs: seq<Pair>)
    ensures var keep := (p: Pair) => Planned(fs, p);
      && |Origin(pairs, keep)| == |PlanFor(fs, pairs)|
      && (forall k :: 0 <= k < |Origin(pairs, keep)| ==>
            Origin(pairs, keep)[k] < |pairs| && Planned(fs, pairs[Origin(pairs, keep)[k]]) &&
            PlanFor(fs, pairs)[k] == MoveFor(pairs[Origin(pairs, keep)[k]]))
      && (forall k1, k2 :: 0 <= k1 < k2 < |Origin(pairs, keep)| ==> Origin(pairs, keep)[k1] < Origin(pairs, keep)[k2])
      && (forall i :: 0 <= i < |pairs| && Planned(fs, pairs[i]) ==> i in Origin(pairs, keep))
  {
    SelectOrigin(pairs, (p: Pair) => Planned(fs, p));
  }

  /** A move is in the plan exactly when some pair that passes both checks yields it. */
  lemma PlanMembers(fs: Fs, pairs: seq<Pair>)
    ensures forall m :: m in PlanFor(fs, pairs) ==> exists p :: p in pairs && Planned(fs, p) && m == MoveFor(p)
    ensures forall p :: p in pairs && Planned(fs, p) ==> MoveFor(p) in PlanFor(fs, pairs)
  {
    var keep := (p: Pair) => Planned(fs, p);
    var sel := Select(pairs, keep);
    SelectMembers(pairs, keep);
    forall m | m in PlanFor(fs, pairs)
      ensures exists p :: p in pairs && Planned(fs, p) && m == MoveFor(p)
    {
      var k :| 0 <= k < |sel| && PlanFor(fs, pairs)[k] == m;
      assert sel[k] in sel;
    }
    forall p | p in pairs && Planned(fs, p)
      ensures MoveFor(p) in PlanFor(fs, pairs)
    {
      var k :| 0 <= k < |sel| && sel[k] == p;
      assert PlanFor(fs, pairs)[k] == MoveFor(p);
    }
  }

  /** Collision skip: no move is a no-op, every move stays in its folder, and
      no move targets a path that existed when the plan was made. */
  lemma PlanSafe(fs: Fs, pairs: seq<Pair>)
    ensures forall m :: m in PlanFor(fs, pairs) ==>
      m.src != m.dst && m.dst.Parent() == m.src.Parent() && !fs.Exists(m.dst)
  {
    PlanMembers(fs, pairs);
  }

  /** Every path the plan touches is different from every other: sources
      differ, targets differ, and no source is also a target. */
  ghost predicate DistinctPaths(plan: seq<Move>) {
    && (forall i, j :: 0 <= i < j < |plan| ==> plan[i].src != plan[j].src && plan[i].dst != plan[j].dst)
    && (forall i, j :: 0 <= i < |plan| && 0 <= j < |plan| ==> plan[i].src != plan[j].dst)
  }

  ghost predicate RawsDistinct(pairs: seq<Pair>) {
    forall i, j :: 0 <= i < j < |pairs| ==> pairs[i].raw != pairs[j].raw
  }

  /** The plan's targets are pairwise distinct. */
  ghost predicate TargetsDistinct(plan: seq<Move>) {
    forall i, j :: 0 <= i < j < |plan| ==> plan[i].dst != plan[j].dst
  }

  /** A plan made from distinct RAW files moves distinct sources. */
  lemma PlanSourcesDistinct(fs: Fs, pairs: seq<Pair>)
    requires RawsDistinct(pairs)
    ensures forall i, j :: 0 <= i < j < |PlanFor(fs, pairs)| ==> PlanFor(fs, pairs)[i].src != PlanFor(fs, pairs)[j].src
  {
    PlanIsSelection(fs, pairs);
  }

  /** Moves whose sources differ and exist, and whose targets differ and do
      not exist, touch every path once. */
  lemma DistinctFromDisk(fs: Fs, plan: seq<Move>)
    requires forall i, j :: 0 <= i < j < |plan| ==> plan[i].src != plan[j].src
    requires TargetsDistinct(plan)
    requires forall m :: m in plan ==> m.src in fs.files && !fs.Exists(m.dst)
    ensures DistinctPaths(plan)
  {
    forall i, j | 0 <= i < |plan| && 0 <= j < |plan|
      ensures plan[i].src != plan[j].dst
    {
      assert plan[i] in plan && plan[j] in plan;
    }
  }

  /** The planner only compares targets with the disk, never with each
      other; when the targets happen to be distinct, a plan made from
      distinct RAW files that all exist touches every path once. */
  lemma PlanDistinctWhenTargetsAre(fs: Fs, pairs: seq<Pair>)
    requires RawsDistinct(pairs)
    requires forall p :: p in pairs ==> p.raw in fs.files
    requires TargetsDistinct(PlanFor(fs, pairs))
    ensures DistinctPaths(PlanFor(fs, pairs))
  {
    PlanMembers(fs, pairs);
    PlanSafe(fs, pairs);
    PlanSourcesDistinct(fs, pairs);
    DistinctFromDisk(fs, PlanFor(fs, pairs));
  }

  /** The plan as written can send two RAW files to one target: two RAW
      files with the same suffix in one folder, both closest to the same JPG,
      and a target that does not exist yet. */
  lemma SharedTargetPlanned()
    ensures var dir := Path("/", ["raw"]);
      var a := Pair(dir.Join("IMG_1.CR2"), Path("/", ["jpg", "W.jpg"]), 2);
      var b := Pair(dir.Join("IMG_2.CR2"), Path("/", ["jpg", "W.jpg"]), 3);
      var fs := Fs({dir}, map[a.raw := Image(1), b.raw := Image(2)]);
      PlanFor(fs, [a, b]) == [Move(a.raw, dir.Join("W.CR2")), Move(b.raw, dir.Join("W.CR2"))]
  {
    var dir := Path("/", ["raw"]);
    var jpg := Path("/", ["jpg", "W.jpg"]);
    var a := Pair(dir.Join("IMG_1.CR2"), jpg, 2);
    var b := Pair(dir.Join("IMG_2.CR2"), jpg, 3);
    var fs := Fs({dir}, map[a.raw := Image(1), b.raw := Image(2)]);
    var t := dir.Join("W.CR2");
    SharedTargetOf(a, "IMG_1.CR2");
    SharedTargetOf(b, "IMG_2.CR2");
    assert |t.Name()| == 5 && |a.raw.Name()| == 9 && |b.raw.Name()| == 9;
    assert t != dir && t != a.raw && t != b.raw;
    assert !fs.Exists(t);
    assert Planned(fs, a) && Planned(fs, b);
    PlanForSnoc(fs, [], a);
    assert [] + [a] == [a];
    assert PlanFor(fs, [a]) == [Move(a.raw, t)];
    PlanForSnoc(fs, [a], b);
    assert [a] + [b] == [a, b];
  }

  /** The target of a RAW file `/raw/<name>` with a five-letter stem and the
      suffix ".CR2", paired with `/jpg/W.jpg`, is `/raw/W.CR2`. */
  lemma SharedTargetOf(p: Pair, name: string)
    requires |name| == 9 && name[5..] == ".CR2" && '.' !in name[..5]
    requires p.raw == Path("/", ["raw"]).Join(name)
    requires p.jpg == Path("/", ["jpg", "W.jpg"])
    ensures TargetFor(p) == Path("/", ["raw"]).Join("W.CR2")
    ensures TargetFor(p) != p.raw
  {
    LastDotAfter("W.jpg", 1);
    LastDotAfter(name, 5);
    assert p.jpg.Stem() == "W";
    assert p.raw.Suffix() == ".CR2";
    assert "W" + ".CR2" == "W.CR2";
    assert p.raw.Name() != "W.CR2";
  }

  /** Drops every move whose target an earlier kept move already has. */
  function FirstPerTarget(plan: seq<Move>): (r: seq<Move>)
    ensures |r| <= |plan|
    ensures forall m :: m in r ==> m in plan
    ensures TargetsDistinct(r)
  {
    if |plan| == 0 then []
    else
      var prev := FirstPerTarget(plan[..|plan| - 1]);
      var last := plan[|plan| - 1];
      if exists m :: m in prev && m.dst == last.dst then prev else prev + [last]
  }

  /** Every target of the plan keeps a move. */
  lemma {:induction false} FirstPerTargetCovers(plan: seq<Move>)
    ensures forall m :: m in plan ==> exists k :: k in FirstPerTarget(plan) && k.dst == m.dst
  {
    if |plan| > 0 {
      var init := plan[..|plan| - 1];
      var last := plan[|plan| - 1];
      FirstPerTargetCovers(init);
      assert plan == init + [last];
      forall m | m in plan ensures exists k :: k in FirstPerTarget(plan) && k.dst == m.dst {
        if m in init {
          var k :| k in FirstPerTarget(init) && k.dst == m.dst;
          assert k in FirstPerTarget(plan);
        } else if exists k :: k in FirstPerTarget(init) && k.dst == last.dst {
          var k :| k in FirstPerTarget(init) && k.dst == last.dst;
          assert k in FirstPerTarget(plan);
        } else {
          assert last in FirstPerTarget(plan);
        }
      }
    }
  }

  /** A move that no earlier move shares its target with is kept. */
  lemma {:induction false} FirstPerTargetKeepsFirst(plan: seq<Move>)
    ensures forall i :: 0 <= i < |plan| && (forall j :: 0 <= j < i ==> plan[j].dst != plan[i].dst) ==>
      plan[i] in FirstPerTarget(plan)
  {
    if |plan| > 0 {
      var init := plan[..|plan| - 1];
      var last := plan[|plan| - 1];
      var prev := FirstPerTarget(init);
      FirstPerTargetKeepsFirst(init);
      forall i | 0 <= i < |plan| && (forall j :: 0 <= j < i ==> plan[j].dst != plan[i].dst)
        ensures plan[i] in FirstPerTarget(plan)
      {
        if i < |init| {
          assert init[i] == plan[i];
          forall j | 0 <= j < i ensures init[j].dst != init[i].dst {
            assert init[j] == plan[j];
          }
        } else {
          forall m | m in prev ensures m.dst != last.dst {
            var j :| 0 <= j < |init| && init[j] == m;
            assert plan[j] == m;
          }
        }
      }
    }
  }

  /** Every kept move is the first move of the plan with its target. */
  lemma {:induction false} FirstPerTargetOnlyFirst(plan: seq<Move>)
    ensures forall m :: m in FirstPerTarget(plan) ==>
      exists i :: 0 <= i < |plan| && plan[i] == m && forall j :: 0 <= j < i ==> plan[j].dst != m.dst
  {
    if |plan| > 0 {
      var init := plan[..|plan| - 1];
      var last := plan[|plan| - 1];
      var prev := FirstPerTarget(init);
      FirstPerTargetOnlyFirst(init);
      FirstPerTargetCovers(init);
      forall m | m in FirstPerTarget(plan)
        ensures exists i :: 0 <= i < |plan| && plan[i] == m && forall j :: 0 <= j < i ==> plan[j].dst != m.dst
      {
        if m in prev {
          var i :| 0 <= i < |init| && init[i] == m && forall j :: 0 <= j < i ==> init[j].dst != m.dst;
          assert plan[i] == m;
          forall j | 0 <= j < i ensures plan[j].dst != m.dst {
            assert plan[j] == init[j];
          }
        } else {
          assert m == last && !exists k :: k in prev && k.dst == last.dst;
          forall j | 0 <= j < |init| ensures plan[j].dst != m.dst {
            assert plan[j] == init[j] && init[j] in init;
          }
        }
      }
    }
  }

  /** A plan whose targets already differ is kept whole. */
  lemma {:induction false} FirstPerTargetIdentity(plan: seq<Move>)
    requires TargetsDistinct(plan)
    ensures FirstPerTarget(plan) == plan
  {
    if |plan| > 0 {
      var init := plan[..|plan| - 1];
      var last := plan[|plan| - 1];
      assert TargetsDistinct(init);
      FirstPerTargetIdentity(init);
      forall m | m in init ensures m.dst != last.dst {
        var j :| 0 <= j < |init| && init[j] == m;
      }
    }
  }

  /** The positions in the plan of the moves `FirstPerTarget` keeps. */
  ghost function FirstOrigin(plan: seq<Move>): seq<nat> {
    if |plan| == 0 then []
    else
      var last := plan[|plan| - 1];
      var prev := FirstPerTarget(plan[..|plan| - 1]);
      FirstOrigin(plan[..|plan| - 1]) + (if exists m :: m in prev && m.dst == last.dst then [] else [|plan| - 1])
  }

  /** The kept moves keep plan order: kept move k is the plan's move at
      position FirstOrigin[k], and those positions increase. */
  lemma {:induction false} FirstPerTargetOrder(plan: seq<Move>)
    ensures |FirstOrigin(plan)| == |FirstPerTarget(plan)|
    ensures forall k :: 0 <= k < |FirstOrigin(plan)| ==>
      FirstOrigin(plan)[k] < |plan| && FirstPerTarget(plan)[k] == plan[FirstOrigin(plan)[k]]
    ensures forall k1, k2 :: 0 <= k1 < k2 < |FirstOrigin(plan)| ==> FirstOrigin(plan)[k1] < FirstOrigin(plan)[k2]
  {
    if |plan| > 0 {
      var init := plan[..|plan| - 1];
      FirstPerTargetOrder(init);
      assert forall i :: 0 <= i < |init| ==> init[i] == plan[i];
    }
  }

  /** The planner with one more check: a pair is also skipped when an
      earlier move of the same plan already has its target, so no rename
      replaces a file another rename of the plan put there. */
  function PlanForDistinct(fs: Fs, pairs: seq<Pair>): (plan: seq<Move>)
    ensures TargetsDistinct(plan)
    ensures forall m :: m in plan ==> m in PlanFor(fs, pairs)
  {
    FirstPerTarget(PlanFor(fs, pairs))
  }

  /** The corrected planner keeps exactly the first move per target of the
      as-written plan. */
  lemma PlanForDistinctKeepsFirst(fs: Fs, pairs: seq<Pair>)
    ensures var plan := PlanFor(fs, pairs);
      && (forall m :: m in PlanForDistinct(fs, pairs) ==>
            exists i :: 0 <= i < |plan| && plan[i] == m && forall j :: 0 <= j < i ==> plan[j].dst != m.dst)
      && (forall i :: 0 <= i < |plan| && (forall j :: 0 <= j < i ==> plan[j].dst != plan[i].dst) ==>
            plan[i] in PlanForDistinct(fs, pairs))
  {
    var plan := PlanFor(fs, pairs);
    assert PlanForDistinct(fs, pairs) == FirstPerTarget(plan);
    FirstPerTargetOnlyFirst(plan);
    FirstPerTargetKeepsFirst(plan);
  }

  /** The corrected planner keeps a move for every target of the as-written
      plan, and the whole plan when no two of its targets coincide. */
  lemma PlanForDistinctCovers(fs: Fs, pairs: seq<Pair>)
    ensures var plan := PlanFor(fs, pairs);
      && (forall m :: m in plan ==> exists k :: k in PlanForDistinct(fs, pairs) && k.dst == m.dst)
      && (TargetsDistinct(plan) ==> PlanForDistinct(fs, pairs) == plan)
  {
    var plan := PlanFor(fs, pairs);
    assert PlanForDistinct(fs, pairs) == FirstPerTarget(plan);
    FirstPerTargetCovers(plan);
    if TargetsDistinct(plan) {
      FirstPerTargetIdentity(plan);
    }
  }

  /** Keeping the first move per target keeps distinct sources distinct. */
  lemma {:induction false} FirstPerTargetDistinct(plan: seq<Move>)
    requires forall i, j :: 0 <= i < j < |plan| ==> plan[i].src != plan[j].src
    ensures forall i, j :: 0 <= i < j < |FirstPerTarget(plan)| ==> FirstPerTarget(plan)[i].src != FirstPerTarget(plan)[j].src
  {
    if |plan| > 0 {
      var init := plan[..|plan| - 1];
      FirstPerTargetDistinct(init);
      var prev := FirstPerTarget(init);
      var last := plan[|plan| - 1];
      forall m | m in prev ensures m.src != last.src {
        var i :| 0 <= i < |init| && init[i] == m;
      }
    }
  }

  /** The corrected planner touches every path once, whatever the JPG stems. */
  lemma PlanForDistinctIsDistinct(fs: Fs, pairs: seq<Pair>)
    requires RawsDistinct(pairs)
    requires forall p :: p in pairs ==> p.raw in fs.files
    ensures DistinctPaths(PlanForDistinct(fs, pairs))
    ensures forall m :: m in PlanForDistinct(fs, pairs) ==> m in PlanFor(fs, pairs)
  {
    PlanMembers(fs, pairs);
    PlanSafe(fs, pairs);
    PlanSourcesDistinct(fs, pairs);
    FirstPerTargetDistinct(PlanFor(fs, pairs));
    DistinctFromDisk(fs, PlanForDistinct(fs, pairs));
  }
}
