/**
 * The `RASZZ` class with its refactoring cache, the impacted-file filter and
 * the recursive blame filter, and the `ImpactedFile` and `ReblameCandidate`
 * objects they update: loops and in-place updates, each proved against the
 * specification in `RaSzzSpec`.
 */
module RaSzz {
  import opened Wrappers
  import opened RaSzzSpec

  /** A file changed by a fix, with the lines it changed; the filter reassigns the lines. */
  class ImpactedFile {
    const filePath: Path
    var modifiedLines: seq<int>

    constructor (filePath: Path, modifiedLines: seq<int>)
      ensures this.filePath == filePath && this.modifiedLines == modifiedLines
    {
      this.filePath := filePath;
      this.modifiedLines := modifiedLines;
    }
  }

  /** Lines of `filePath` to blame again at `rev`; lines are appended in place. */
  class ReblameCandidate {
    const rev: Rev
    const filePath: Path
    var modifiedLines: seq<int>

    constructor (rev: Rev, filePath: Path, modifiedLines: seq<int>)
      ensures this.rev == rev && this.filePath == filePath && this.modifiedLines == modifiedLines
    {
      this.rev := rev;
      this.filePath := filePath;
      this.modifiedLines := modifiedLines;
    }
  }

  /**
   * The `to_reblame` dictionary (`objs`, with its keys in insertion order
   * `order`) holds exactly the groups of `p`, each in an object of its own.
   */
  ghost predicate Mirrors(p: Partition, order: seq<string>, objs: map<string, ReblameCandidate>)
    reads objs.Values
  {
    && order == p.order
    && (forall k :: k in objs <==> k in p.groups)
    && (forall k :: k in objs ==>
          && objs[k].rev == p.groups[k].rev
          && objs[k].filePath == p.groups[k].filePath
          && objs[k].modifiedLines == p.groups[k].lines)
    && (forall k1, k2 :: k1 in objs && k2 in objs && k1 != k2 ==> objs[k1] != objs[k2])
  }

  /** `lines_to_remove`: the lines of `lines` in `path` that `location` covers. */
  method LinesToRemove(lines: seq<int>, path: Path, location: Location) returns (remove: set<int>)
    ensures remove == CoveredBy(lines, path, location)
  {
    remove := {};
    var m := 0;
    while m < |lines|
      invariant 0 <= m <= |lines|
      invariant remove == CoveredBy(lines[..m], path, location)
    {
      var line := lines[m];
      assert forall x :: x in CoveredBy(lines[..m + 1], path, location) <==>
        x in CoveredBy(lines[..m], path, location) || (x == line && Covers(location, path, line)) by {
        assert forall q :: 0 <= q < m ==> lines[..m + 1][q] == lines[..m][q];
        assert lines[..m + 1][m] == line;
      }
      if path == location.filePath && line >= location.startLine && line <= location.endLine {
        remove := remove + {line};
      }
      m := m + 1;
    }
    assert lines[..|lines|] == lines;
  }

  /** One location of the fix's refactorings, applied to every impacted file. */
  method StripLocation(files: seq<ImpactedFile>, location: Location, ghost done: seq<Location>)
    requires NoDuplicates(files)
    modifies files
    ensures forall t :: 0 <= t < |files| ==>
      files[t].modifiedLines == Without(old(files[t].modifiedLines),
                                        CoveredBy(old(files[t].modifiedLines), files[t].filePath, location))
  {
    var idx := 0;
    while idx < |files|
      invariant 0 <= idx <= |files|
      invariant forall t :: 0 <= t < idx ==>
        files[t].modifiedLines == Without(old(files[t].modifiedLines),
                                          CoveredBy(old(files[t].modifiedLines), files[t].filePath, location))
      invariant forall t :: idx <= t < |files| ==> files[t].modifiedLines == old(files[t].modifiedLines)
    {
      var f := files[idx];
      var remove := LinesToRemove(f.modifiedLines, f.filePath, location);
      f.modifiedLines := Without(f.modifiedLines, remove);
      idx := idx + 1;
    }
  }

  /** The nested loops of `get_impacted_files` over the fix's refactorings and their right-side locations. */
  method StripRefactored(files: seq<ImpactedFile>, refs: seq<Refactoring>)
    requires NoDuplicates(files)
    modifies files
    ensures forall t :: 0 <= t < |files| ==>
      files[t].modifiedLines == KeepUncovered(old(files[t].modifiedLines), files[t].filePath, AllLocations(refs))
  {
    forall t | 0 <= t < |files|
      ensures KeepUncovered(files[t].modifiedLines, files[t].filePath, []) == files[t].modifiedLines
    {
      KeepUncoveredNone(files[t].modifiedLines, files[t].filePath);
    }
    var j := 0;
    while j < |refs|
      invariant 0 <= j <= |refs|
      invariant forall t :: 0 <= t < |files| ==>
        files[t].modifiedLines == KeepUncovered(old(files[t].modifiedLines), files[t].filePath, AllLocations(refs[..j]))
    {
      var locs := refs[j].rightSideLocations;
      ghost var before := AllLocations(refs[..j]);
      assert before + locs[..0] == before;
      var k := 0;
      while k < |locs|
        invariant 0 <= k <= |locs|
        invariant forall t :: 0 <= t < |files| ==>
          files[t].modifiedLines == KeepUncovered(old(files[t].modifiedLines), files[t].filePath, before + locs[..k])
      {
        ghost var done := before + locs[..k];
        StripLocation(files, locs[k], done);
        forall t | 0 <= t < |files|
          ensures files[t].modifiedLines == KeepUncovered(old(files[t].modifiedLines), files[t].filePath, done + [locs[k]])
        {
          KeepUncoveredStep(old(files[t].modifiedLines), files[t].filePath, done, locs[k]);
        }
        assert done + [locs[k]] == before + locs[..k + 1];
        k := k + 1;
      }
      assert refs[..j + 1][..j] == refs[..j];
      assert locs[..|locs|] == locs;
      j := j + 1;
    }
    assert refs[..|refs|] == refs;
  }

  /** `[f for f in files if len(f.modified_lines) > 0]` */
  method NonEmptyFiles(files: seq<ImpactedFile>) returns (kept: seq<ImpactedFile>)
    requires NoDuplicates(files)
    ensures NoDuplicates(kept)
    ensures forall f :: f in kept <==> f in files && f.modifiedLines != []
  {
    kept := [];
    var t := 0;
    while t < |files|
      invariant 0 <= t <= |files|
      invariant NoDuplicates(kept)
      invariant forall f :: f in kept <==> f in files[..t] && f.modifiedLines != []
    {
      var f := files[t];
      assert forall g :: g in files[..t + 1] <==> g in files[..t] || g == f by {
        assert files[..t + 1] == files[..t] + [f];
      }
      if |f.modifiedLines| > 0 {
        assert f !in files[..t];
        kept := kept + [f];
      }
      t := t + 1;
    }
    assert files[..|files|] == files;
  }

  /** Add `b`'s line to the `to_reblame` entry of its commit and file, creating the entry on first use. */
  method AddToReblame(b: BlameData, order0: seq<string>, objs0: map<string, ReblameCandidate>, ghost p0: Partition)
    returns (order: seq<string>, objs: map<string, ReblameCandidate>, ghost p: Partition)
    requires Mirrors(p0, order0, objs0)
    modifies objs0.Values
    ensures Mirrors(p, order, objs)
    ensures p == AddLine(p0, b)
    ensures forall k :: k in objs ==> (k in objs0 && objs[k] == objs0[k]) || fresh(objs[k])
  {
    var key := Key(b.commit, b.filePath);
    if key !in objs0 {
      var c := new ReblameCandidate(b.commit, b.filePath, [b.lineNum]);
      objs := objs0[key := c];
      order := order0 + [key];
    } else {
      objs, order := objs0, order0;
      objs[key].modifiedLines := objs[key].modifiedLines + [b.lineNum];
    }
    p := AddLine(p0, b);
  }

  /**
   * The scan of candidate `b` against the right-side locations `locs` of one
   * refactoring, continuing a scan that has seen the locations `before`.
   */
  method ScanRefactoring(b: BlameData, locs: seq<Location>, ghost pStart: Partition, ghost before: seq<Location>,
                         canAdd0: bool, order0: seq<string>, objs0: map<string, ReblameCandidate>, ghost p0: Partition)
    returns (canAdd: bool, order: seq<string>, objs: map<string, ReblameCandidate>, ghost p: Partition)
    requires Mirrors(p0, order0, objs0) && p0 == ScanLocations(pStart, b, before) && p0.accepted == pStart.accepted
    requires canAdd0 <==> MatchCount(before, b.filePath, b.lineNum) == 0
    modifies objs0.Values
    ensures Mirrors(p, order, objs) && p == ScanLocations(pStart, b, before + locs) && p.accepted == pStart.accepted
    ensures canAdd <==> MatchCount(before + locs, b.filePath, b.lineNum) == 0
    ensures forall k :: k in objs ==> (k in objs0 && objs[k] == objs0[k]) || fresh(objs[k])
  {
    canAdd, order, objs, p := canAdd0, order0, objs0, p0;
    assert before + locs[..0] == before;
    var k := 0;
    while k < |locs|
      invariant 0 <= k <= |locs|
      invariant Mirrors(p, order, objs)
      invariant p == ScanLocations(pStart, b, before + locs[..k]) && p.accepted == pStart.accepted
      invariant canAdd <==> MatchCount(before + locs[..k], b.filePath, b.lineNum) == 0
      invariant forall k :: k in objs ==> (k in objs0 && objs[k] == objs0[k]) || fresh(objs[k])
    {
      ghost var done := before + locs[..k];
      var location := locs[k];
      assert (done + [location])[..|done|] == done;
      assert done + [location] == before + locs[..k + 1];
      if b.filePath == location.filePath && b.lineNum >= location.startLine && b.lineNum <= location.endLine {
        order, objs, p := AddToReblame(b, order, objs, p);
        canAdd := false;
      }
      k := k + 1;
    }
    assert locs[..|locs|] == locs;
  }

  /**
   * The scan of candidate `b` against the refactorings `refs` of its own commit:
   * each covering location adds `b`'s line to the group of `b`'s commit and file,
   * creating the group (a fresh `ReblameCandidate`) on first use.
   */
  method ScanCandidate(b: BlameData, refs: seq<Refactoring>, order0: seq<string>,
                       objs0: map<string, ReblameCandidate>, ghost p0: Partition)
    returns (canAdd: bool, order: seq<string>, objs: map<string, ReblameCandidate>, ghost p: Partition)
    requires Mirrors(p0, order0, objs0)
    modifies objs0.Values
    ensures Mirrors(p, order, objs)
    ensures p == ScanLocations(p0, b, AllLocations(refs)) && p.accepted == p0.accepted
    ensures canAdd <==> !Covered(AllLocations(refs), b.filePath, b.lineNum)
    ensures canAdd ==> p == p0
    ensures forall k :: k in objs ==> (k in objs0 && objs[k] == objs0[k]) || fresh(objs[k])
  {
    canAdd, order, objs, p := true, order0, objs0, p0;
    var j := 0;
    while j < |refs|
      invariant 0 <= j <= |refs|
      invariant Mirrors(p, order, objs)
      invariant p == ScanLocations(p0, b, AllLocations(refs[..j])) && p.accepted == p0.accepted
      invariant canAdd <==> MatchCount(AllLocations(refs[..j]), b.filePath, b.lineNum) == 0
      invariant forall k :: k in objs ==> (k in objs0 && objs[k] == objs0[k]) || fresh(objs[k])
    {
      canAdd, order, objs, p :=
        ScanRefactoring(b, refs[j].rightSideLocations, p0, AllLocations(refs[..j]), canAdd, order, objs, p);
      AllLocationsSnoc(refs, j);
      j := j + 1;
    }
    assert refs[..|refs|] == refs;
    MatchCountCovered(AllLocations(refs), b.filePath, b.lineNum);
    if canAdd {
      ScanUncovered(p0, b, AllLocations(refs));
    }
  }

  /**
   * One pass of the candidate loop of `_blame`: candidate `i`, whose commit has
   * the refactorings `refs`, is accepted when no location covers it and is
   * otherwise added to `to_reblame` once per covering location.
   */
  method FilterCandidate(ghost miner: Rev -> MinerRun, ghost cands: seq<BlameData>, ghost i: nat,
                         b: BlameData, refs: seq<Refactoring>,
                         accepted0: set<BlameData>, order0: seq<string>, objs0: map<string, ReblameCandidate>,
                         ghost p0: Partition)
    returns (accepted: set<BlameData>, order: seq<string>, objs: map<string, ReblameCandidate>, ghost p: Partition)
    requires i < |cands| && b == cands[i] && refs == RefactoringsOf(miner, b.commit)
    requires p0 == PartitionOf(miner, cands[..i]) && accepted0 == p0.accepted && Mirrors(p0, order0, objs0)
    modifies objs0.Values
    ensures p == PartitionOf(miner, cands[..i + 1]) && accepted == p.accepted && Mirrors(p, order, objs)
    ensures forall k :: k in objs ==> (k in objs0 && objs[k] == objs0[k]) || fresh(objs[k])
  {
    PartitionOfStep(miner, cands, i);
    var canAdd;
    canAdd, order, objs, p := ScanCandidate(b, refs, order0, objs0, p0);
    accepted := accepted0;
    if canAdd {
      accepted := accepted + {b};
      p := p.(accepted := p.accepted + {b});
    }
  }

  /** One more candidate whose commit is cached extends the cached prefix. */
  lemma CachedStep(cands: seq<BlameData>, cache: Cache, i: nat)
    requires i < |cands| && cands[i].commit in cache
    requires forall j :: 0 <= j < i ==> cands[j].commit in cache
    ensures forall j :: 0 <= j < i + 1 ==> cands[j].commit in cache
  {
  }

  /**
   * The candidate loop of `_blame` over `cands`, reading the cache `cache`:
   * accept each candidate that no location of its own commit's refactorings
   * covers, and group the covered ones for a reblame. `missing` is the
   * `KeyError` raised at the first candidate whose commit has no cache entry.
   */
  method CollectCandidates(ghost miner: Rev -> MinerRun, cache: Cache, cands: seq<BlameData>)
    returns (missing: Option<Rev>, accepted: set<BlameData>, order: seq<string>,
             objs: map<string, ReblameCandidate>, ghost p: Partition, ghost at: nat)
    requires Consistent(miner, cache)
    ensures missing.Some? ==>
      (at < |cands| && cands[at].commit == missing.value
       && cands[at].commit !in cache && forall j :: 0 <= j < at ==> cands[j].commit in cache)
    ensures missing.None? ==> forall j :: 0 <= j < |cands| ==> cands[j].commit in cache
    ensures missing.None? ==> p == PartitionOf(miner, cands) && accepted == p.accepted && Mirrors(p, order, objs)
    ensures forall k :: k in objs ==> fresh(objs[k])
  {
    missing, accepted, order, objs, p, at := None, {}, [], map[], Partition({}, [], map[]), 0;
    var i := 0;
    while i < |cands|
      invariant 0 <= i <= |cands|
      invariant p == PartitionOf(miner, cands[..i]) && accepted == p.accepted && Mirrors(p, order, objs)
      invariant forall k :: k in objs ==> fresh(objs[k])
      invariant forall j :: 0 <= j < i ==> cands[j].commit in cache
    {
      var b := cands[i];
      if b.commit !in cache {
        missing, at := Some(b.commit), i;
        return;
      }
      accepted, order, objs, p := FilterCandidate(miner, cands, i, b, cache[b.commit], accepted, order, objs, p);
      CachedStep(cands, cache, i);
      i := i + 1;
    }
    assert cands[..|cands|] == cands;
  }

  /** The reblame loop over the groups still to do, `rest`, starting from `acc`, ends in `goal`. */
  ghost predicate Remaining(env: Env, rest: seq<string>, groups: map<string, Group>, ignore: Option<seq<Rev>>,
                            acc: set<BlameData>, goal: Result<set<BlameData>, Failure>)
  {
    WellFormed(env) && GroupsInUniverse(env, rest, groups) && ReblameAll(env, rest, groups, ignore, acc) == goal
  }

  /**
   * Extracting `rest` from `cache`, after the miner already ran on `done`,
   * finishes exactly as the whole extraction `full` does.
   */
  ghost predicate Resumes(miner: Rev -> MinerRun, cache: Cache, rest: seq<Rev>, full: Extraction, done: seq<Rev>)
  {
    var e := Extract(miner, cache, rest);
    e.cache == full.cache && e.raised == full.raised && done + e.queried == full.queried
  }

  /** The refactorings of `refs[..j + 1]` are those of `refs[..j]` followed by those of `refs[j]`. */
  lemma AllLocationsSnoc(refs: seq<Refactoring>, j: nat)
    requires j < |refs|
    ensures AllLocations(refs[..j + 1]) == AllLocations(refs[..j]) + refs[j].rightSideLocations
  {
    assert refs[..j + 1][..j] == refs[..j];
  }

  /** Candidates whose commits were all cached stay cached in a cache that only gains entries. */
  lemma StaysCached(cands: seq<BlameData>, c1: Cache, c2: Cache)
    requires forall j :: 0 <= j < |cands| ==> cands[j].commit in c1
    requires forall c :: c in c1 ==> c in c2
    ensures forall b :: b in cands ==> b.commit in c2
  {
    forall b | b in cands ensures b.commit in c2 {
      var j :| 0 <= j < |cands| && cands[j] == b;
    }
  }

  /** A cache that only gains entries keeps the earlier groups' candidates cached, and the next group joins them. */
  lemma CachedMore(env: Env, ks: seq<string>, k: string, groups: map<string, Group>, ignore: Option<seq<Rev>>,
                   c1: Cache, c2: Cache)
    requires GroupsCached(env, ks, groups, ignore, c1)
    requires forall c :: c in c1 ==> c in c2
    requires k in groups && ignore.Some? && groups[k].rev !in ignore.value ==>
      CandidatesCached(env, groups[k].rev, groups[k].filePath, groups[k].lines, Some(ignore.value + [groups[k].rev]), c2)
    ensures GroupsCached(env, ks + [k], groups, ignore, c2)
  {
  }

  /**
   * The refactoring-aware SZZ object. `refactorings` is the cache of miner
   * results; `minerCalls` records, for the proofs only, every commit the
   * miner was run on over the object's lifetime.
   */
  class RASZZ {
    const env: Env
    var refactorings: Cache
    ghost var minerCalls: seq<Rev>

    /** The cache agrees with the miner, and no commit whose run was stored is run twice. */
    ghost predicate Valid()
      reads this
    {
      && WellFormed(env)
      && Consistent(env.miner, refactorings)
      && LogTidy(env.miner, refactorings, minerCalls)
    }

    constructor (env: Env)
      requires WellFormed(env)
      ensures Valid()
      ensures this.env == env && refactorings == map[] && minerCalls == []
    {
      this.env := env;
      refactorings := map[];
      minerCalls := [];
    }

    /**
     * `_extract_refactorings(commits)`: run the miner on every commit not yet
     * cached and store what it reports. `raised` is the `JSONDecodeError` that
     * escapes when a report does not decode.
     */
    method ExtractRefactorings(commits: seq<Rev>) returns (raised: bool)
      requires Valid()
      modifies this
      ensures Valid()
      ensures var e := Extract(env.miner, old(refactorings), commits);
        && refactorings == e.cache
        && minerCalls == old(minerCalls) + e.queried
        && raised == e.raised
    {
      ExtractConsistent(env.miner, refactorings, commits);
      ExtractLogTidy(env.miner, refactorings, minerCalls, commits);
      raised := ExtractLoop(commits);
    }

    /** The loop of `_extract_refactorings`, proved against `Extract` alone. */
    method ExtractLoop(commits: seq<Rev>) returns (raised: bool)
      modifies this
      ensures var e := Extract(env.miner, old(refactorings), commits);
        && refactorings == e.cache
        && minerCalls == old(minerCalls) + e.queried
        && raised == e.raised
    {
      ghost var full := Extract(env.miner, refactorings, commits);
      ghost var done: seq<Rev> := [];
      assert commits[0..] == commits;
      raised := false;
      var i := 0;
      while i < |commits|
        invariant 0 <= i <= |commits|
        invariant minerCalls == old(minerCalls) + done
        invariant Resumes(env.miner, refactorings, commits[i..], full, done)
      {
        assert commits[i..][1..] == commits[i + 1..];
        raised, done := ExtractStep(commits[i], commits[i..], full, old(minerCalls), done);
        if raised {
          return;
        }
        i := i + 1;
      }
      assert commits[i..] == [];
    }

    /**
     * One turn of the loop in `_extract_refactorings`: a cached commit is
     * skipped, any other is handed to the miner. Extracting the remaining
     * commits from the new cache still ends in `full`, or the step raised
     * and `full` is already reached.
     */
    method ExtractStep(c: Rev, ghost rest: seq<Rev>, ghost full: Extraction, ghost log: seq<Rev>,
                       ghost done: seq<Rev>) returns (raised: bool, ghost done': seq<Rev>)
      requires rest != [] && rest[0] == c
      requires minerCalls == log + done && Resumes(env.miner, refactorings, rest, full, done)
      modifies this
      ensures minerCalls == log + done'
      ensures raised ==> full.raised && refactorings == full.cache && done' == full.queried
      ensures !raised ==> Resumes(env.miner, refactorings, rest[1..], full, done')
    {
      raised, done' := false, done;
      if c !in refactorings {
        ghost var before := refactorings;
        raised := RunMiner(c);
        done' := done + [c];
        ExtractFirstRun(env.miner, before, rest);
      }
    }

    /**
     * One miner run on `c` and the cache update that follows it: the decoded
     * report's first commit's refactorings (or `[]` when the report lacks them),
     * `[]` after a timeout, nothing after a failed process, and `raised` when
     * the output does not decode.
     */
    method RunMiner(c: Rev) returns (raised: bool)
      modifies this
      ensures minerCalls == old(minerCalls) + [c]
      ensures raised <==> EffectOf(env.miner(c)) == Raise
      ensures refactorings == match EffectOf(env.miner(c))
        case Store(refs) => old(refactorings)[c := refs]
        case _ => old(refactorings)
    {
      minerCalls := minerCalls + [c];
      raised := false;
      match env.miner(c)
      case NotJson =>
        raised := true;
      case ProcessFailed =>
      case TimedOut =>
        refactorings := refactorings[c := []];
      case Finished(report) =>
        if report.commits.Some? && |report.commits.value| > 0 && report.commits.value[0].refactorings.Some? {
          refactorings := refactorings[c := report.commits.value[0].refactorings.value];
        } else {
          refactorings := refactorings[c := []];
        }
    }

    /**
     * `get_impacted_files(fix)`: strip from the base impacted files every line
     * that a right-side location of one of the fix commit's own refactorings
     * covers, and return the files with lines left.
     */
    method GetImpactedFiles(fix: Rev, base: seq<ImpactedFile>) returns (r: Result<seq<ImpactedFile>, Failure>)
      requires Valid()
      modifies this, base
      ensures Valid()
      ensures refactorings == Extract(env.miner, old(refactorings), [fix]).cache
      ensures r == Err(JsonDecodeError) <==> EffectOf(env.miner(fix)) == Raise
      ensures r == Err(KeyError(fix)) <==> EffectOf(env.miner(fix)) == StoreNothing
      ensures r.Err? ==> forall f :: f in base ==> f.modifiedLines == old(f.modifiedLines)
      ensures r.Ok? ==> forall f :: f in base ==>
        f.modifiedLines == KeepUncovered(old(f.modifiedLines), f.filePath, AllLocations(RefactoringsOf(env.miner, fix)))
      ensures r.Ok? ==> NoDuplicates(r.value) && forall f :: f in r.value <==> f in base && f.modifiedLines != []
    {
      ExtractOutcome(env.miner, refactorings, [fix]);
      assert [fix][0] == fix;
      var raised := ExtractRefactorings([fix]);
      if raised {
        return Err(JsonDecodeError);
      }
      if fix !in refactorings {
        return Err(KeyError(fix));
      }
      var files := Distinct(base);
      StripRefactored(files, refactorings[fix]);
      var kept := NonEmptyFiles(files);
      forall f | f in base ensures f in files {
        var t :| 0 <= t < |base| && base[t] == f;
      }
      r := Ok(kept);
    }

    /**
     * `_blame(rev, file_path, modified_lines, ignore_revs_list=ignore)`: the base
     * blame, filtered by the candidates' own refactorings, with each group of
     * refactored lines blamed again at its commit with that commit ignored.
     */
    method Blame(rev: Rev, path: Path, lines: seq<int>, ignore: Option<seq<Rev>>)
      returns (r: Result<set<BlameData>, Failure>)
      requires Valid()
      modifies this
      ensures Valid()
      ensures r == BlameSpec(env, rev, path, lines, ignore)
      ensures forall c :: c in old(refactorings) ==> c in refactorings && refactorings[c] == old(refactorings)[c]
      ensures r.Ok? ==> CandidatesCached(env, rev, path, lines, ignore, refactorings)
      decreases Unignored(env, ignore), 1
    {
      var cands := env.baseBlame(rev, path, lines, ignore);
      ghost var cache := refactorings;
      ExtractKeepsCached(env.miner, refactorings, Distinct(Commits(cands)));
      var raised := ExtractRefactorings(Distinct(Commits(cands)));
      if raised {
        BlameRaises(env, cache, rev, path, lines, ignore);
        return Err(JsonDecodeError);
      }
      var missing, accepted, order, objs, p, at := CollectCandidates(env.miner, refactorings, cands);
      if missing.Some? {
        BlameMissing(env, cache, rev, path, lines, ignore, at);
        return Err(KeyError(missing.value));
      }
      BlameReblames(env, cache, rev, path, lines, ignore);
      ghost var mid := refactorings;
      r := ReblameGroups(order, objs, p.groups, ignore, accepted);
      StaysCached(cands, mid, refactorings);
    }

    /**
     * The reblame loop of `_blame`: each group whose commit is not yet ignored is
     * blamed again at that commit, with a copy of the ignore list that also
     * ignores it, and the results are added to `accepted`.
     */
    method ReblameGroups(order: seq<string>, objs: map<string, ReblameCandidate>, ghost groups: map<string, Group>,
                         ignore: Option<seq<Rev>>, accepted: set<BlameData>)
      returns (r: Result<set<BlameData>, Failure>)
      requires Valid()
      requires GroupsInUniverse(env, order, groups)
      requires forall k :: k in order ==>
        (k in objs && objs[k].rev == groups[k].rev
         && objs[k].filePath == groups[k].filePath && objs[k].modifiedLines == groups[k].lines)
      modifies this
      ensures Valid()
      ensures r == ReblameAll(env, order, groups, ignore, accepted)
      ensures forall c :: c in old(refactorings) ==> c in refactorings && refactorings[c] == old(refactorings)[c]
      ensures r.Ok? ==> GroupsCached(env, order, groups, ignore, refactorings)
      decreases Unignored(env, ignore), 0, 1
    {
      ghost var goal := ReblameAll(env, order, groups, ignore, accepted);
      var result := accepted;
      var i := 0;
      assert order[0..] == order;
      while i < |order|
        invariant 0 <= i <= |order|
        invariant Valid()
        invariant Remaining(env, order[i..], groups, ignore, result, goal)
        invariant forall c :: c in old(refactorings) ==> c in refactorings && refactorings[c] == old(refactorings)[c]
        invariant GroupsCached(env, order[..i], groups, ignore, refactorings)
      {
        assert order[i] in order;
        assert order[i..][1..] == order[i + 1..];
        ghost var before := refactorings;
        var failure;
        failure, result := ReblameOne(objs[order[i]], order[i..], groups, ignore, result, goal);
        if failure.Some? {
          return Err(failure.value);
        }
        CachedMore(env, order[..i], order[i], groups, ignore, before, refactorings);
        assert order[..i + 1] == order[..i] + [order[i]];
        i := i + 1;
      }
      assert order[i..] == [] && order[..i] == order;
      r := Ok(result);
    }

    /**
     * One group of the reblame loop: `TypeError` without an ignore list, a skip
     * when the group's commit is already ignored, and otherwise the recursive
     * blame with the commit appended to a copy of the list, whose result joins
     * `acc`.
     */
    method ReblameOne(cand: ReblameCandidate, ghost rest: seq<string>, ghost groups: map<string, Group>,
                      ignore: Option<seq<Rev>>, acc: set<BlameData>, ghost goal: Result<set<BlameData>, Failure>)
      returns (failure: Option<Failure>, acc': set<BlameData>)
      requires Valid()
      requires rest != [] && rest[0] in groups
      requires cand.rev == groups[rest[0]].rev && cand.filePath == groups[rest[0]].filePath
      requires cand.modifiedLines == groups[rest[0]].lines
      requires Remaining(env, rest, groups, ignore, acc, goal)
      modifies this
      ensures Valid()
      ensures failure.Some? ==> goal == Err(failure.value)
      ensures failure.None? ==> Remaining(env, rest[1..], groups, ignore, acc', goal)
      ensures forall c :: c in old(refactorings) ==> c in refactorings && refactorings[c] == old(refactorings)[c]
      ensures failure.None? && ignore.Some? && cand.rev !in ignore.value ==>
        CandidatesCached(env, cand.rev, cand.filePath, cand.modifiedLines, Some(ignore.value + [cand.rev]), refactorings)
      decreases Unignored(env, ignore), 0, 0
    {
      if ignore.None? {
        return Some(TypeError), acc;
      }
      failure, acc' := None, acc;
      if cand.rev !in ignore.value {
        UnignoredShrinks(env, ignore.value, cand.rev);
        var sub := Blame(cand.rev, cand.filePath, cand.modifiedLines, Some(ignore.value + [cand.rev]));
        if sub.Err? {
          return Some(sub.error), acc;
        }
        acc' := acc + sub.value;
      }
    }
  }
}
