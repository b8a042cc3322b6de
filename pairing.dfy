/** The pairing rule of `find_pairs`: each RAW file goes to the first JPG,
    in scan order, whose fingerprint is closest to its own, when that
    distance is within the similarity threshold. */
module Pairing {
  import opened Paths
  import opened Storage
  import opened Hashing
  import opened Scanning
  import opened Selection

  /** One entry of `jpg_hashes`: a JPG that hashed, with its fingerprint. */
  datatype Candidate = Candidate(jpg: Path, fp: Fingerprint)

  /** One entry of `pairs`: (raw_file, best_match, best_similarity). */
  datatype Pair = Pair(raw: Path, jpg: Path, distance: nat)

  /** `jpg_hashes` after the JPG pass: the JPGs that hashed, in scan order.
      Over a duplicate-free scan the dict's insertion order is this order. */
  function Candidates(fs: Fs, decode: Content -> Option<Fingerprint>, jpgs: seq<Path>): (c: seq<Candidate>)
    ensures forall k :: k in c ==> HashOf(fs, decode, k.jpg) == Some(k.fp)
  {
    if |jpgs| == 0 then []
    else
      var last := jpgs[|jpgs| - 1];
      Candidates(fs, decode, jpgs[..|jpgs| - 1]) +
        (match HashOf(fs, decode, last) case Some(h) => [Candidate(last, h)] case None => [])
  }

  /** Every JPG that hashed is a candidate, with its fingerprint, and nothing else is. */
  lemma {:induction false} CandidatesMembers(fs: Fs, decode: Content -> Option<Fingerprint>, jpgs: seq<Path>)
    ensures |Candidates(fs, decode, jpgs)| <= |jpgs|
    ensures forall c :: c in Candidates(fs, decode, jpgs) <==> c.jpg in jpgs && HashOf(fs, decode, c.jpg) == Some(c.fp)
  {
    if |jpgs| > 0 {
      var init := jpgs[..|jpgs| - 1];
      CandidatesMembers(fs, decode, init);
      assert jpgs == init + [jpgs[|jpgs| - 1]];
    }
  }

  /** The candidate at `k` is the one the inner loop keeps: within the
      threshold, no farther than any candidate, and strictly closer than
      every candidate before it (a later tie does not replace it). */
  ghost predicate IsFirstClosest(fp: Fingerprint, cands: seq<Candidate>, k: int, threshold: int) {
    && 0 <= k < |cands|
    && Distance(fp, cands[k].fp) <= threshold
    && (forall j :: 0 <= j < |cands| ==> Distance(fp, cands[k].fp) <= Distance(fp, cands[j].fp))
    && (forall j :: 0 <= j < k ==> Distance(fp, cands[k].fp) < Distance(fp, cands[j].fp))
  }

  /** The index of the first minimum of the candidates' distances. */
  function FirstMinIndex(fp: Fingerprint, cands: seq<Candidate>): (k: nat)
    requires |cands| > 0
    ensures k < |cands|
    ensures forall j :: 0 <= j < |cands| ==> Distance(fp, cands[k].fp) <= Distance(fp, cands[j].fp)
    ensures forall j :: 0 <= j < k ==> Distance(fp, cands[k].fp) < Distance(fp, cands[j].fp)
  {
    if |cands| == 1 then 0
    else
      var k := FirstMinIndex(fp, cands[..|cands| - 1]);
      if Distance(fp, cands[|cands| - 1].fp) < Distance(fp, cands[k].fp) then |cands| - 1 else k
  }

  /** The JPG that the inner loop of `find_pairs` settles on, by index. */
  function BestMatch(fp: Fingerprint, cands: seq<Candidate>, threshold: int): (m: Option<nat>)
    ensures m.Some? ==> IsFirstClosest(fp, cands, m.value, threshold)
    ensures m.None? <==> forall j :: 0 <= j < |cands| ==> Distance(fp, cands[j].fp) > threshold
  {
    if |cands| == 0 then None
    else
      var k := FirstMinIndex(fp, cands);
      if Distance(fp, cands[k].fp) <= threshold then Some(k) else None
  }

  /** At most one candidate is the first closest one, so the rule above
      determines the match. */
  lemma FirstClosestUnique(fp: Fingerprint, cands: seq<Candidate>, k: int, threshold: int)
    requires IsFirstClosest(fp, cands, k, threshold)
    ensures BestMatch(fp, cands, threshold) == Some(k)
  {
  }

  /** Raising the threshold keeps a match, with the same JPG. */
  lemma BestMatchMonotone(fp: Fingerprint, cands: seq<Candidate>, t1: int, t2: int)
    requires t1 <= t2
    requires BestMatch(fp, cands, t1).Some?
    ensures BestMatch(fp, cands, t2) == BestMatch(fp, cands, t1)
  {
    FirstClosestUnique(fp, cands, BestMatch(fp, cands, t1).value, t2);
  }

  /** What one pass of the RAW loop appends for `raw`, if anything. */
  function MatchFor(fs: Fs, decode: Content -> Option<Fingerprint>, raw: Path, cands: seq<Candidate>, threshold: int): (m: Option<Pair>)
    ensures m.Some? ==> m.value.raw == raw && m.value.distance <= threshold
    ensures m.None? <==> HashOf(fs, decode, raw).None? || BestMatch(HashOf(fs, decode, raw).value, cands, threshold).None?
  {
    match HashOf(fs, decode, raw)
    case None => None
    case Some(h) =>
      match BestMatch(h, cands, threshold)
      case None => None
      case Some(k) => Some(Pair(raw, cands[k].jpg, Distance(h, cands[k].fp)))
  }

  /** A match names the first closest candidate and its distance. */
  lemma MatchForIsFirstClosest(fs: Fs, decode: Content -> Option<Fingerprint>, raw: Path, cands: seq<Candidate>, threshold: int)
    requires MatchFor(fs, decode, raw, cands, threshold).Some?
    ensures var m := MatchFor(fs, decode, raw, cands, threshold).value;
            var h := HashOf(fs, decode, raw).value;
            exists k :: IsFirstClosest(h, cands, k, threshold) && cands[k].jpg == m.jpg && Distance(h, cands[k].fp) == m.distance
  {
    var h := HashOf(fs, decode, raw).value;
    var k := BestMatch(h, cands, threshold).value;
    assert IsFirstClosest(h, cands, k, threshold);
  }

  /** Raising the threshold never removes a RAW file's pair nor changes its JPG or distance. */
  lemma MatchForMonotone(fs: Fs, decode: Content -> Option<Fingerprint>, raw: Path, cands: seq<Candidate>, t1: int, t2: int)
    requires t1 <= t2
    requires MatchFor(fs, decode, raw, cands, t1).Some?
    ensures MatchFor(fs, decode, raw, cands, t2) == MatchFor(fs, decode, raw, cands, t1)
  {
    BestMatchMonotone(HashOf(fs, decode, raw).value, cands, t1, t2);
  }

  /** `self.pairs` after the RAW loop has run over `raws`. */
  function PairsFor(fs: Fs, decode: Content -> Option<Fingerprint>, raws: seq<Path>, cands: seq<Candidate>, threshold: int): (ps: seq<Pair>)
    ensures |ps| <= |raws|
    ensures forall p :: p in ps ==> p.raw in raws && p.distance <= threshold
  {
    if |raws| == 0 then []
    else
      var last := raws[|raws| - 1];
      PairsFor(fs, decode, raws[..|raws| - 1], cands, threshold) +
        (match MatchFor(fs, decode, last, cands, threshold) case Some(p) => [p] case None => [])
  }

  /** The pairs are exactly the matches of the RAW files that have one. */
  lemma {:induction false} PairsMembers(fs: Fs, decode: Content -> Option<Fingerprint>, raws: seq<Path>, cands: seq<Candidate>, threshold: int)
    ensures |PairsFor(fs, decode, raws, cands, threshold)| <= |raws|
    ensures forall p :: p in PairsFor(fs, decode, raws, cands, threshold) <==>
      p.raw in raws && MatchFor(fs, decode, p.raw, cands, threshold) == Some(p)
  {
    if |raws| > 0 {
      var init := raws[..|raws| - 1];
      var last := raws[|raws| - 1];
      PairsMembers(fs, decode, init, cands, threshold);
      assert raws == init + [last];
      var ps := PairsFor(fs, decode, raws, cands, threshold);
      var tail := match MatchFor(fs, decode, last, cands, threshold) case Some(q) => [q] case None => [];
      assert ps == PairsFor(fs, decode, init, cands, threshold) + tail;
      forall p ensures p in ps <==> p.raw in raws && MatchFor(fs, decode, p.raw, cands, threshold) == Some(p) {
        assert p in tail <==> p.raw == last && MatchFor(fs, decode, p.raw, cands, threshold) == Some(p);
        assert p.raw in raws <==> p.raw in init || p.raw == last;
      }
    }
  }

  /** Every stored distance is within the threshold. */
  lemma PairsWithinThreshold(fs: Fs, decode: Content -> Option<Fingerprint>, raws: seq<Path>, cands: seq<Candidate>, threshold: int)
    ensures forall p :: p in PairsFor(fs, decode, raws, cands, threshold) ==> p.distance <= threshold
  {
    PairsMembers(fs, decode, raws, cands, threshold);
  }

  /** Pairs follow the order of the RAW files. */
  lemma {:induction false} PairsAppend(fs: Fs, decode: Content -> Option<Fingerprint>, a: seq<Path>, b: seq<Path>, cands: seq<Candidate>, threshold: int)
    ensures PairsFor(fs, decode, a + b, cands, threshold) ==
      PairsFor(fs, decode, a, cands, threshold) + PairsFor(fs, decode, b, cands, threshold)
  {
    if |b| > 0 {
      var init := b[..|b| - 1];
      assert (a + b)[..|a + b| - 1] == a + init;
      PairsAppend(fs, decode, a, init, cands, threshold);
    } else {
      assert a + b == a;
    }
  }

  /** One pair per RAW file at most. */
  lemma {:induction false} PairsOnePerRaw(fs: Fs, decode: Content -> Option<Fingerprint>, raws: seq<Path>, cands: seq<Candidate>, threshold: int)
    requires NoDups(raws)
    ensures forall i, j :: 0 <= i < j < |PairsFor(fs, decode, raws, cands, threshold)| ==>
      PairsFor(fs, decode, raws, cands, threshold)[i].raw != PairsFor(fs, decode, raws, cands, threshold)[j].raw
  {
    if |raws| > 0 {
      var init := raws[..|raws| - 1];
      PairsOnePerRaw(fs, decode, init, cands, threshold);
      PairsMembers(fs, decode, init, cands, threshold);
    }
  }

  /** Monotonicity in the threshold: every pair found under `t1` is found,
      unchanged, under any larger `t2`. */
  lemma PairsMonotone(fs: Fs, decode: Content -> Option<Fingerprint>, raws: seq<Path>, cands: seq<Candidate>, t1: int, t2: int)
    requires t1 <= t2
    ensures forall p :: p in PairsFor(fs, decode, raws, cands, t1) ==> p in PairsFor(fs, decode, raws, cands, t2)
  {
    PairsMembers(fs, decode, raws, cands, t1);
    PairsMembers(fs, decode, raws, cands, t2);
    forall p | p in PairsFor(fs, decode, raws, cands, t1)
      ensures p in PairsFor(fs, decode, raws, cands, t2)
    {
      MatchForMonotone(fs, decode, p.raw, cands, t1, t2);
    }
  }

  /** One `progress_callback(processed, total_files, label)` call. */
  datatype Progress = Progress(processed: nat, total: nat, message: string)

  function JpgLabel(p: Path): string { "Zpracovávám JPG: " + p.Name() }

  function RawLabel(p: Path): string { "Zpracovávám RAW: " + p.Name() }

  /** The label of the `k`-th file processed, JPG pass first. */
  function LabelAt(jpgs: seq<Path>, raws: seq<Path>, k: nat): string
    requires k < |jpgs| + |raws|
  {
    if k < |jpgs| then JpgLabel(jpgs[k]) else RawLabel(raws[k - |jpgs|])
  }

  /** The callbacks of a whole run: one per file, JPG pass first, counting 1, 2, ... */
  ghost predicate IsProgressRun(events: seq<Progress>, jpgs: seq<Path>, raws: seq<Path>, count: nat) {
    && count <= |jpgs| + |raws|
    && |events| == count
    && forall k :: 0 <= k < count ==> events[k] == Progress(k + 1, |jpgs| + |raws|, LabelAt(jpgs, raws, k))
  }
}
