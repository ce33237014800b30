/**
 * Refactoring-aware SZZ (RA-SZZ*): the data it works on and a pure
 * specification of its three operations, with the properties proved of them.
 *
 * The two collaborators are parameters, gathered in `Env`:
 *  - `miner`: what running RefactoringMiner on a commit yields (the decoded
 *    JSON report, or one of the three ways the run can fail);
 *  - `baseBlame`: the blame of the parent algorithm (MA-SZZ), which returns a
 *    set of attributions, given here as the sequence in which that set is
 *    iterated.
 * `universe` is the finite set of revisions the base blame can return.
 */
module RaSzzSpec {
  import opened Wrappers

  type Rev = string
  type Path = string

  /** A right-side location of a refactoring: lines `startLine..endLine` (inclusive) of `filePath`. */
  datatype Location = Location(filePath: Path, startLine: int, endLine: int)

  /** One entry of a commit's `refactorings` list. */
  datatype Refactoring = Refactoring(kind: string, rightSideLocations: seq<Location>)

  /** The decoded report: `commits` and a commit's `refactorings` may be absent. */
  datatype MinerCommit = MinerCommit(refactorings: Option<seq<Refactoring>>)
  datatype MinerReport = MinerReport(commits: Option<seq<MinerCommit>>)

  /** The outcome of one RefactoringMiner run on a commit. */
  datatype MinerRun =
    | Finished(report: MinerReport)  // exit status 0, output is JSON
    | NotJson                        // exit status 0, output does not decode
    | TimedOut                       // `TimeoutExpired` after 300 s
    | ProcessFailed                  // `CalledProcessError`: non-zero exit status

  /** `BlameData`: the commit a line is attributed to, the file and the line number. */
  datatype BlameData = BlameData(commit: Rev, filePath: Path, lineNum: int)

  /** The exceptions that escape the refactoring-aware filter. */
  datatype Failure =
    | JsonDecodeError  // raised by `json.loads`, not caught
    | KeyError(key: Rev)  // cache lookup of a commit whose miner run failed
    | TypeError  // `rev in None`: no ignore list when a reblame is reached

  datatype Env = Env(
    miner: Rev -> MinerRun,
    baseBlame: (Rev, Path, seq<int>, Option<seq<Rev>>) -> seq<BlameData>,
    universe: set<Rev>)

  predicate NoDuplicates<T(==)>(s: seq<T>)
  {
    forall i, j :: 0 <= i < j < |s| ==> s[i] != s[j]
  }

  /** `set(s)` iterated in first-occurrence order: each element of `s` once. */
  function Distinct<T(==)>(s: seq<T>): (r: seq<T>)
    ensures NoDuplicates(r)
    ensures forall i :: 0 <= i < |s| ==> s[i] in r
    ensures forall i :: 0 <= i < |r| ==> r[i] in s
  {
    if s == [] then []
    else
      var d := Distinct(s[..|s| - 1]);
      var x := s[|s| - 1];
      assert forall i :: 0 <= i < |s| - 1 ==> s[i] == s[..|s| - 1][i];
      if x in d then d else d + [x]
  }

  /** The base blame returns a set (no repeats) of attributions to revisions of `universe`. */
  ghost predicate WellFormed(env: Env)
  {
    && (forall rev, path, lines, ignore, k :: 0 <= k < |env.baseBlame(rev, path, lines, ignore)| ==>
          env.baseBlame(rev, path, lines, ignore)[k].commit in env.universe)
    && (forall rev, path, lines, ignore :: NoDuplicates(env.baseBlame(rev, path, lines, ignore)))
  }

  // ---------------------------------------------------------------------------
  // The refactoring cache (`self.refactorings`) and `_extract_refactorings`
  // ---------------------------------------------------------------------------

  type Cache = map<Rev, seq<Refactoring>>

  /** What one miner run does to the cache for a commit that is not in it yet. */
  datatype CacheEffect = Store(refactorings: seq<Refactoring>) | StoreNothing | Raise

  function EffectOf(run: MinerRun): CacheEffect
  {
    match run
    case Finished(report) =>
      if report.commits.Some? && |report.commits.value| > 0 && report.commits.value[0].refactorings.Some?
      then Store(report.commits.value[0].refactorings.value)
      else Store([])
    case TimedOut => Store([])
    case ProcessFailed => StoreNothing
    case NotJson => Raise
  }

  /** The refactorings a commit is known to have once its miner run has been stored. */
  function RefactoringsOf(miner: Rev -> MinerRun, c: Rev): seq<Refactoring>
  {
    match EffectOf(miner(c))
    case Store(refs) => refs
    case _ => []
  }

  /** Every cache entry is what the miner run of its commit stores. */
  ghost predicate Consistent(miner: Rev -> MinerRun, cache: Cache)
  {
    forall c :: c in cache ==> EffectOf(miner(c)) == Store(cache[c])
  }

  /** The cache after the loop, the commits the miner was run on (in order), and whether it raised. */
  datatype Extraction = Extraction(cache: Cache, queried: seq<Rev>, raised: bool)

  /** `_extract_refactorings(commits)` run on `cache`. */
  function Extract(miner: Rev -> MinerRun, cache: Cache, commits: seq<Rev>): Extraction
    decreases |commits|
  {
    if commits == [] then Extraction(cache, [], false)
    else
      var c := commits[0];
      if c in cache then Extract(miner, cache, commits[1..])
      else
        match EffectOf(miner(c))
        case Raise => Extraction(cache, [c], true)
        case StoreNothing =>
          var e := Extract(miner, cache, commits[1..]);
          e.(queried := [c] + e.queried)
        case Store(refs) =>
          var e := Extract(miner, cache[c := refs], commits[1..]);
          e.(queried := [c] + e.queried)
  }

  /** The loop's step for an uncached first commit: one miner run, then the rest with the updated cache. */
  lemma ExtractFirstRun(miner: Rev -> MinerRun, cache: Cache, commits: seq<Rev>)
    requires commits != [] && commits[0] !in cache
    ensures var c := commits[0];
      var next := match EffectOf(miner(c)) case Store(refs) => cache[c := refs] case _ => cache;
      var e := Extract(miner, cache, commits);
      if EffectOf(miner(c)) == Raise then e == Extraction(cache, [c], true)
      else e == Extract(miner, next, commits[1..]).(queried := [c] + Extract(miner, next, commits[1..]).queried)
  {
  }

  /** A cached commit is never handed to the miner again, and its entry is kept as it was. */
  lemma {:induction false} ExtractKeepsCached(miner: Rev -> MinerRun, cache: Cache, commits: seq<Rev>)
    ensures var e := Extract(miner, cache, commits);
      forall c :: c in cache ==> c in e.cache && e.cache[c] == cache[c] && c !in e.queried
    decreases |commits|
  {
    if commits != [] && commits[0] !in cache {
      match EffectOf(miner(commits[0]))
      case Raise =>
      case StoreNothing => ExtractKeepsCached(miner, cache, commits[1..]);
      case Store(refs) => ExtractKeepsCached(miner, cache[commits[0] := refs], commits[1..]);
    } else if commits != [] {
      ExtractKeepsCached(miner, cache, commits[1..]);
    }
  }

  /**
   * What the loop's miner calls look like: each queried commit is one of
   * `commits` that was not cached before, a commit is queried again only when
   * its earlier run stored nothing, and a run that stored something is cached.
   */
  ghost predicate QueriesTidy(miner: Rev -> MinerRun, before: Cache, commits: seq<Rev>, e: Extraction)
  {
    && (forall i :: 0 <= i < |e.queried| ==> e.queried[i] in commits && e.queried[i] !in before)
    && (forall i, j :: 0 <= i < j < |e.queried| && e.queried[i] == e.queried[j] ==>
          !EffectOf(miner(e.queried[i])).Store?)
    && (forall i :: 0 <= i < |e.queried| && EffectOf(miner(e.queried[i])).Store? ==> e.queried[i] in e.cache)
  }

  lemma {:induction false} ExtractQueries(miner: Rev -> MinerRun, cache: Cache, commits: seq<Rev>)
    ensures QueriesTidy(miner, cache, commits, Extract(miner, cache, commits))
    decreases |commits|
  {
    if commits != [] {
      var c := commits[0];
      if c in cache {
        ExtractQueries(miner, cache, commits[1..]);
        assert forall x :: x in commits[1..] ==> x in commits;
      } else {
        match EffectOf(miner(c))
        case Raise =>
        case StoreNothing =>
          ExtractQueries(miner, cache, commits[1..]);
          ExtractKeepsCached(miner, cache, commits[1..]);
          QueriedCons(miner, cache, commits, cache);
        case Store(refs) =>
          ExtractQueries(miner, cache[c := refs], commits[1..]);
          ExtractKeepsCached(miner, cache[c := refs], commits[1..]);
          QueriedCons(miner, cache, commits, cache[c := refs]);
      }
    }
  }

  /** The step of `ExtractQueries` for a first commit that is queried. */
  lemma QueriedCons(miner: Rev -> MinerRun, cache: Cache, commits: seq<Rev>, next: Cache)
    requires commits != [] && commits[0] !in cache && !EffectOf(miner(commits[0])).Raise?
    requires next == (if EffectOf(miner(commits[0])).Store? then cache[commits[0] := EffectOf(miner(commits[0])).refactorings] else cache)
    requires QueriesTidy(miner, next, commits[1..], Extract(miner, next, commits[1..]))
    requires forall x :: x in next ==> x in Extract(miner, next, commits[1..]).cache
    ensures QueriesTidy(miner, cache, commits, Extract(miner, cache, commits))
  {
    var c := commits[0];
    var e := Extract(miner, next, commits[1..]);
    assert Extract(miner, cache, commits) == e.(queried := [c] + e.queried);
    TidyPrepend(miner, cache, next, commits, e);
  }

  /** Prepending a first commit that was not cached keeps the queries tidy. */
  lemma TidyPrepend(miner: Rev -> MinerRun, cache: Cache, next: Cache, commits: seq<Rev>, e: Extraction)
    requires commits != [] && commits[0] !in cache
    requires forall x :: x in cache ==> x in next
    requires EffectOf(miner(commits[0])).Store? ==> commits[0] in next
    requires QueriesTidy(miner, next, commits[1..], e)
    requires forall x :: x in next ==> x in e.cache
    ensures QueriesTidy(miner, cache, commits, e.(queried := [commits[0]] + e.queried))
  {
    var c := commits[0];
    var q := [c] + e.queried;
    assert forall x :: x in commits[1..] ==> x in commits;
    forall i | 0 <= i < |q| ensures q[i] in commits && q[i] !in cache {
      if i > 0 {
        assert q[i] == e.queried[i - 1];
      }
    }
    forall i | 0 <= i < |q| && EffectOf(miner(q[i])).Store? ensures q[i] in e.cache {
      if i > 0 {
        assert q[i] == e.queried[i - 1];
      }
    }
    forall i, j | 0 <= i < j < |q| && q[i] == q[j] ensures !EffectOf(miner(q[i])).Store? {
      if i > 0 {
        assert q[i] == e.queried[i - 1] && q[j] == e.queried[j - 1];
      } else {
        assert q[j] == e.queried[j - 1];
      }
    }
  }


  /**
   * A log of miner runs over the object's lifetime is tidy for `cache` when
   * every run that stored something is cached and no such commit was run twice.
   */
  ghost predicate LogTidy(miner: Rev -> MinerRun, cache: Cache, log: seq<Rev>)
  {
    && (forall i :: 0 <= i < |log| && EffectOf(miner(log[i])).Store? ==> log[i] in cache)
    && (forall i, j :: 0 <= i < j < |log| && log[i] == log[j] ==> !EffectOf(miner(log[i])).Store?)
  }

  /** Each call of `_extract_refactorings` keeps the log of all miner runs tidy. */
  lemma ExtractLogTidy(miner: Rev -> MinerRun, cache: Cache, log: seq<Rev>, commits: seq<Rev>)
    requires LogTidy(miner, cache, log)
    ensures var e := Extract(miner, cache, commits);
      LogTidy(miner, e.cache, log + e.queried)
  {
    var e := Extract(miner, cache, commits);
    ExtractQueries(miner, cache, commits);
    ExtractKeepsCached(miner, cache, commits);
    var l := log + e.queried;
    forall i | 0 <= i < |l| && EffectOf(miner(l[i])).Store? ensures l[i] in e.cache {
      if i >= |log| {
        assert l[i] == e.queried[i - |log|];
      }
    }
    forall i, j | 0 <= i < j < |l| && l[i] == l[j] ensures !EffectOf(miner(l[i])).Store? {
      if j < |log| {
        assert l[i] == log[i] && l[j] == log[j];
      } else if i < |log| {
        assert l[j] == e.queried[j - |log|];
      } else {
        assert l[i] == e.queried[i - |log|] && l[j] == e.queried[j - |log|];
      }
    }
  }

  /** A cache that agrees with the miner still agrees after the loop. */
  lemma {:induction false} ExtractConsistent(miner: Rev -> MinerRun, cache: Cache, commits: seq<Rev>)
    requires Consistent(miner, cache)
    ensures Consistent(miner, Extract(miner, cache, commits).cache)
    decreases |commits|
  {
    if commits != [] {
      var c := commits[0];
      if c in cache {
        ExtractConsistent(miner, cache, commits[1..]);
      } else {
        match EffectOf(miner(c))
        case Raise =>
        case StoreNothing => ExtractConsistent(miner, cache, commits[1..]);
        case Store(refs) => ExtractConsistent(miner, cache[c := refs], commits[1..]);
      }
    }
  }

  /**
   * The loop raises exactly when an uncached commit's output does not decode;
   * otherwise every commit ends up cached unless its run failed, and nothing
   * else is added.
   */
  lemma {:induction false} ExtractOutcome(miner: Rev -> MinerRun, cache: Cache, commits: seq<Rev>)
    ensures var e := Extract(miner, cache, commits);
      && (e.raised <==> exists i :: 0 <= i < |commits| && commits[i] !in cache && EffectOf(miner(commits[i])) == Raise)
      && (!e.raised ==> forall i :: 0 <= i < |commits| ==>
            (commits[i] in e.cache <==> commits[i] in cache || EffectOf(miner(commits[i])).Store?))
      && (forall c :: c in e.cache ==> c in cache || c in commits)
    decreases |commits|
  {
    if commits != [] {
      var c := commits[0];
      var rest := commits[1..];
      assert forall i :: 1 <= i < |commits| ==> commits[i] == rest[i - 1];
      if c in cache {
        ExtractOutcome(miner, cache, rest);
        ExtractKeepsCached(miner, cache, rest);
      } else {
        match EffectOf(miner(c))
        case Raise =>
        case StoreNothing =>
          ExtractOutcome(miner, cache, rest);
        case Store(refs) =>
          ExtractOutcome(miner, cache[c := refs], rest);
          ExtractKeepsCached(miner, cache[c := refs], rest);
      }
    }
  }

  // ---------------------------------------------------------------------------
  // Coverage of a line by refactoring locations
  // ---------------------------------------------------------------------------

  /** `location` covers line `line` of `path` (the test at ra_szz.py:62 and ra_szz.py:108). */
  predicate Covers(location: Location, path: Path, line: int)
  {
    location.filePath == path && location.startLine <= line <= location.endLine
  }

  /** All right-side locations of `refs`, refactoring by refactoring, in order. */
  function AllLocations(refs: seq<Refactoring>): seq<Location>
  {
    if refs == [] then []
    else AllLocations(refs[..|refs| - 1]) + refs[|refs| - 1].rightSideLocations
  }

  predicate Covered(locs: seq<Location>, path: Path, line: int)
  {
    exists k :: 0 <= k < |locs| && Covers(locs[k], path, line)
  }

  // ---------------------------------------------------------------------------
  // `get_impacted_files`: stripping the fix commit's own refactored lines
  // ---------------------------------------------------------------------------

  /** The lines of `path` that no location of `locs` covers, in their original order. */
  function KeepUncovered(lines: seq<int>, path: Path, locs: seq<Location>): seq<int>
  {
    if lines == [] then []
    else (if Covered(locs, path, lines[0]) then [] else [lines[0]]) + KeepUncovered(lines[1..], path, locs)
  }

  /** `[line for line in lines if not line in remove]` */
  function Without(lines: seq<int>, remove: set<int>): (r: seq<int>)
    ensures |r| <= |lines|
  {
    if lines == [] then []
    else (if lines[0] in remove then [] else [lines[0]]) + Without(lines[1..], remove)
  }

  /** The lines of `lines` that `location` covers, as the set `lines_to_remove`. */
  function CoveredBy(lines: seq<int>, path: Path, location: Location): set<int>
  {
    set k | 0 <= k < |lines| && Covers(location, path, lines[k]) :: lines[k]
  }

  /** A kept line is an input line that no location covers, and every such line is kept. */
  lemma {:induction false} KeepUncoveredMembers(lines: seq<int>, path: Path, locs: seq<Location>)
    ensures |KeepUncovered(lines, path, locs)| <= |lines|
    ensures forall l :: l in KeepUncovered(lines, path, locs) <==> l in lines && !Covered(locs, path, l)
  {
    if lines != [] {
      KeepUncoveredMembers(lines[1..], path, locs);
      assert forall l :: l in lines <==> l == lines[0] || l in lines[1..];
    }
  }

  /** With no locations, every line is kept. */
  lemma {:induction false} KeepUncoveredNone(lines: seq<int>, path: Path)
    ensures KeepUncovered(lines, path, []) == lines
  {
    if lines != [] {
      KeepUncoveredNone(lines[1..], path);
      assert [lines[0]] + lines[1..] == lines;
    }
  }

  /** Filtering distributes over concatenation: the kept lines stay in input order. */
  lemma {:induction false} KeepUncoveredAppend(a: seq<int>, b: seq<int>, path: Path, locs: seq<Location>)
    ensures KeepUncovered(a + b, path, locs) == KeepUncovered(a, path, locs) + KeepUncovered(b, path, locs)
  {
    if a != [] {
      assert (a + b)[1..] == a[1..] + b;
      KeepUncoveredAppend(a[1..], b, path, locs);
    } else {
      assert a + b == b;
    }
  }

  /** Removing the lines of one more location is filtering by the longer location list. */
  lemma {:induction false} KeepUncoveredStep(lines: seq<int>, path: Path, locs: seq<Location>, location: Location)
    ensures Without(KeepUncovered(lines, path, locs), CoveredBy(KeepUncovered(lines, path, locs), path, location))
         == KeepUncovered(lines, path, locs + [location])
  {
    var kept := KeepUncovered(lines, path, locs);
    WithoutCovered(kept, kept, path, location);
    KeepTwice(lines, path, locs, location);
  }

  lemma {:induction false} WithoutCovered(lines: seq<int>, all: seq<int>, path: Path, location: Location)
    requires forall l :: l in lines ==> l in all
    ensures Without(lines, CoveredBy(all, path, location)) == KeepUncovered(lines, path, [location])
  {
    if lines != [] {
      WithoutCovered(lines[1..], all, path, location);
      var l := lines[0];
      assert l in lines;
      var k :| 0 <= k < |all| && all[k] == l;
      assert l in CoveredBy(all, path, location) <==> Covers(location, path, l);
      assert Covered([location], path, l) <==> Covers(location, path, l) by {
        assert [location][0] == location;
      }
    }
  }

  lemma {:induction false} KeepTwice(lines: seq<int>, path: Path, locs: seq<Location>, location: Location)
    ensures KeepUncovered(KeepUncovered(lines, path, locs), path, [location]) == KeepUncovered(lines, path, locs + [location])
  {
    if lines != [] {
      var l := lines[0];
      KeepTwice(lines[1..], path, locs, location);
      assert Covered(locs + [location], path, l) <==> Covered(locs, path, l) || Covers(location, path, l) by {
        if Covers(location, path, l) {
          assert (locs + [location])[|locs|] == location;
        }
        if Covered(locs + [location], path, l) && !Covers(location, path, l) {
          var k :| 0 <= k < |locs + [location]| && Covers((locs + [location])[k], path, l);
          assert k < |locs| && (locs + [location])[k] == locs[k];
        }
        if Covered(locs, path, l) {
          var k :| 0 <= k < |locs| && Covers(locs[k], path, l);
          assert (locs + [location])[k] == locs[k];
        }
      }
      assert Covered([location], path, l) <==> Covers(location, path, l) by {
        assert [location][0] == location;
      }
      var rest := KeepUncovered(lines[1..], path, locs);
      if Covered(locs, path, l) {
        assert KeepUncovered(lines, path, locs) == rest;
      } else {
        assert KeepUncovered(lines, path, locs) == [l] + rest;
        assert ([l] + rest)[1..] == rest;
      }
    }
  }

  // ---------------------------------------------------------------------------
  // `_blame`: grouping the refactored attributions for a reblame
  // ---------------------------------------------------------------------------

  /** The key `hexsha + "@" + file_path` of `to_reblame`. */
  function Key(rev: Rev, path: Path): string
  {
    rev + "@" + path
  }

  /** Keys identify their revision and path when revisions contain no `@` (commit hashes are hex). */
  lemma KeyInjective(r1: Rev, p1: Path, r2: Rev, p2: Path)
    requires Key(r1, p1) == Key(r2, p2)
    ensures '@' !in r1 && '@' !in r2 ==> r1 == r2 && p1 == p2
  {
    var k := Key(r1, p1);
    if |r1| < |r2| {
      assert k[|r1|] == '@' && k[|r1|] == r2[|r1|];
    } else if |r2| < |r1| {
      assert k[|r2|] == '@' && k[|r2|] == r1[|r2|];
    } else {
      assert r1 == k[..|r1|] == r2;
      assert p1 == k[|r1| + 1..] == p2;
    }
  }

  /** A `ReblameCandidate`, as a value: revision, file and the lines collected so far. */
  datatype Group = Group(rev: Rev, filePath: Path, lines: seq<int>)

  /** The state of the candidate loop: `result_blame_data`, the keys of `to_reblame` in insertion order, and its entries. */
  datatype Partition = Partition(accepted: set<BlameData>, order: seq<string>, groups: map<string, Group>)

  /** One matching location: create the group of `b` or append `b`'s line to it. */
  function AddLine(p: Partition, b: BlameData): Partition
  {
    var key := Key(b.commit, b.filePath);
    if key !in p.groups then
      p.(order := p.order + [key], groups := p.groups[key := Group(b.commit, b.filePath, [b.lineNum])])
    else
      p.(groups := p.groups[key := p.groups[key].(lines := p.groups[key].lines + [b.lineNum])])
  }

  /** The scan of `b` against `locs`, location by location. */
  function ScanLocations(p: Partition, b: BlameData, locs: seq<Location>): Partition
  {
    if locs == [] then p
    else
      var q := ScanLocations(p, b, locs[..|locs| - 1]);
      if Covers(locs[|locs| - 1], b.filePath, b.lineNum) then AddLine(q, b) else q
  }

  /** The candidate loop of `_blame` over `cands`, each scanned against its own commit's refactorings. */
  function PartitionOf(miner: Rev -> MinerRun, cands: seq<BlameData>): Partition
  {
    if cands == [] then Partition({}, [], map[])
    else
      var p := PartitionOf(miner, cands[..|cands| - 1]);
      var b := cands[|cands| - 1];
      var locs := AllLocations(RefactoringsOf(miner, b.commit));
      if Covered(locs, b.filePath, b.lineNum) then ScanLocations(p, b, locs)
      else p.(accepted := p.accepted + {b})
  }

  /** The candidate loop's step: candidate `i` scanned after the first `i`. */
  lemma PartitionOfStep(miner: Rev -> MinerRun, cands: seq<BlameData>, i: nat)
    requires i < |cands|
    ensures var p := PartitionOf(miner, cands[..i]);
      var b := cands[i];
      var locs := AllLocations(RefactoringsOf(miner, b.commit));
      PartitionOf(miner, cands[..i + 1])
        == if Covered(locs, b.filePath, b.lineNum) then ScanLocations(p, b, locs) else p.(accepted := p.accepted + {b})
  {
    assert cands[..i + 1][..i] == cands[..i];
  }

  /** Well-formed bookkeeping: the order lists each key once, and each key names its group. */
  ghost predicate Tidy(p: Partition)
  {
    && NoDuplicates(p.order)
    && (forall k :: k in p.groups <==> k in p.order)
    && (forall k :: k in p.groups ==> Key(p.groups[k].rev, p.groups[k].filePath) == k && |p.groups[k].lines| > 0)
  }

  /** How many of `locs` cover `line` of `path`. */
  function MatchCount(locs: seq<Location>, path: Path, line: int): nat
  {
    if locs == [] then 0
    else MatchCount(locs[..|locs| - 1], path, line) + (if Covers(locs[|locs| - 1], path, line) then 1 else 0)
  }

  function Repeat(x: int, n: nat): (r: seq<int>)
    ensures |r| == n && forall k :: 0 <= k < n ==> r[k] == x
  {
    if n == 0 then [] else Repeat(x, n - 1) + [x]
  }

  /**
   * The lines a reblame group with key `key` must hold: for each candidate with that key,
   * in candidate order, its line once per location of its commit that covers it.
   */
  function LinesFor(miner: Rev -> MinerRun, cands: seq<BlameData>, key: string): seq<int>
  {
    if cands == [] then []
    else
      var b := cands[|cands| - 1];
      LinesFor(miner, cands[..|cands| - 1], key)
        + (if Key(b.commit, b.filePath) == key
           then Repeat(b.lineNum, MatchCount(AllLocations(RefactoringsOf(miner, b.commit)), b.filePath, b.lineNum))
           else [])
  }

  lemma {:induction false} MatchCountCovered(locs: seq<Location>, path: Path, line: int)
    ensures MatchCount(locs, path, line) > 0 <==> Covered(locs, path, line)
  {
    if locs != [] {
      var init := locs[..|locs| - 1];
      MatchCountCovered(init, path, line);
      if Covered(locs, path, line) && !Covers(locs[|locs| - 1], path, line) {
        var k :| 0 <= k < |locs| && Covers(locs[k], path, line);
        assert k < |init| && init[k] == locs[k];
      }
      if Covered(init, path, line) {
        var k :| 0 <= k < |init| && Covers(init[k], path, line);
        assert locs[k] == init[k];
      }
    }
  }

  /**
   * `q` is `p` with only the group under `key` extended by `added`; a group
   * created on the way belongs to `rev` and `path` and joins the order.
   */
  ghost predicate Extends(p: Partition, q: Partition, key: string, rev: Rev, path: Path, added: seq<int>)
  {
    && Tidy(q)
    && q.accepted == p.accepted
    && (forall k :: k != key ==> (k in q.groups <==> k in p.groups))
    && (forall k :: k in p.groups && k != key ==> q.groups[k] == p.groups[k])
    && (key in q.groups <==> key in p.groups || added != [])
    && (key in q.groups ==>
          (q.groups[key] == if key in p.groups then p.groups[key].(lines := p.groups[key].lines + added)
                            else Group(rev, path, added)))
    && (forall k :: k in p.order ==> k in q.order)
  }

  lemma ExtendsTrans(p: Partition, q: Partition, r: Partition, key: string, rev: Rev, path: Path,
                     a1: seq<int>, a2: seq<int>)
    requires Extends(p, q, key, rev, path, a1) && Extends(q, r, key, rev, path, a2)
    ensures Extends(p, r, key, rev, path, a1 + a2)
  {
    if key in p.groups {
      assert p.groups[key].lines + a1 + a2 == p.groups[key].lines + (a1 + a2);
    } else if a1 == [] {
      assert a1 + a2 == a2;
    }
  }

  /** Adding one line touches the candidate's own group only, creating it at the end of the order when new. */
  lemma AddLineEffect(p: Partition, b: BlameData)
    requires Tidy(p)
    ensures Extends(p, AddLine(p, b), Key(b.commit, b.filePath), b.commit, b.filePath, [b.lineNum])
  {
    var key := Key(b.commit, b.filePath);
    if key !in p.groups {
      var q := AddLine(p, b);
      forall i, j | 0 <= i < j < |q.order| ensures q.order[i] != q.order[j] {
        if j == |p.order| {
          assert p.order[i] in p.groups;
        }
      }
    }
  }

  /** Scanning one candidate appends its line once per covering location to its own group only. */
  lemma {:induction false} ScanEffect(p: Partition, b: BlameData, locs: seq<Location>)
    requires Tidy(p)
    ensures Extends(p, ScanLocations(p, b, locs), Key(b.commit, b.filePath), b.commit, b.filePath,
                    Repeat(b.lineNum, MatchCount(locs, b.filePath, b.lineNum)))
  {
    var key := Key(b.commit, b.filePath);
    if locs == [] {
      assert Repeat(b.lineNum, 0) == [];
      if key in p.groups {
        assert p.groups[key].(lines := p.groups[key].lines + []) == p.groups[key];
      }
    } else {
      var init := locs[..|locs| - 1];
      ScanEffect(p, b, init);
      var q := ScanLocations(p, b, init);
      var n := MatchCount(init, b.filePath, b.lineNum);
      if Covers(locs[|locs| - 1], b.filePath, b.lineNum) {
        AddLineEffect(q, b);
        ExtendsTrans(p, q, AddLine(q, b), key, b.commit, b.filePath, Repeat(b.lineNum, n), [b.lineNum]);
        assert Repeat(b.lineNum, n + 1) == Repeat(b.lineNum, n) + [b.lineNum];
      }
    }
  }

  /** A candidate no location covers leaves the bookkeeping as it was. */
  lemma {:induction false} ScanUncovered(p: Partition, b: BlameData, locs: seq<Location>)
    requires MatchCount(locs, b.filePath, b.lineNum) == 0
    ensures ScanLocations(p, b, locs) == p
  {
    if locs != [] {
      ScanUncovered(p, b, locs[..|locs| - 1]);
    }
  }

  /** The candidate loop's bookkeeping is tidy and accepts exactly the uncovered candidates. */
  lemma {:induction false} PartitionAccepts(miner: Rev -> MinerRun, cands: seq<BlameData>)
    ensures var p := PartitionOf(miner, cands);
      && Tidy(p)
      && (forall b :: b in p.accepted <==>
            b in cands && !Covered(AllLocations(RefactoringsOf(miner, b.commit)), b.filePath, b.lineNum))
  {
    if cands != [] {
      var init := cands[..|cands| - 1];
      var b := cands[|cands| - 1];
      PartitionAccepts(miner, init);
      var locs := AllLocations(RefactoringsOf(miner, b.commit));
      assert forall x :: x in cands <==> x in init || x == b;
      ScanEffect(PartitionOf(miner, init), b, locs);
    }
  }

  /** Every group is named after the commit and file of some candidate. */
  lemma {:induction false} PartitionOrigins(miner: Rev -> MinerRun, cands: seq<BlameData>)
    ensures var p := PartitionOf(miner, cands);
      forall k :: k in p.groups ==>
        exists i :: 0 <= i < |cands| && cands[i].commit == p.groups[k].rev && cands[i].filePath == p.groups[k].filePath
  {
    if cands != [] {
      var init := cands[..|cands| - 1];
      var b := cands[|cands| - 1];
      PartitionAccepts(miner, init);
      PartitionOrigins(miner, init);
      var p := PartitionOf(miner, init);
      var locs := AllLocations(RefactoringsOf(miner, b.commit));
      ScanEffect(p, b, locs);
      var q := PartitionOf(miner, cands);
      forall k | k in q.groups
        ensures exists i :: 0 <= i < |cands| && cands[i].commit == q.groups[k].rev
                  && cands[i].filePath == q.groups[k].filePath
      {
        if k in p.groups {
          OriginInPrefix(cands, init, p.groups[k].rev, p.groups[k].filePath);
        } else {
          assert cands[|cands| - 1] == b;
        }
      }
    }
  }

  /** A candidate found in a prefix of `cands` is found in `cands`. */
  lemma OriginInPrefix(cands: seq<BlameData>, init: seq<BlameData>, rev: Rev, path: Path)
    requires |init| <= |cands| && init == cands[..|init|]
    requires exists i :: (0 <= i < |init| && init[i].commit == rev && init[i].filePath == path)
    ensures exists i :: (0 <= i < |cands| && cands[i].commit == rev && cands[i].filePath == path)
  {
    var i :| 0 <= i < |init| && init[i].commit == rev && init[i].filePath == path;
    assert cands[i] == init[i];
  }

  /** Each group holds, in candidate order, every line with its key once per covering location. */
  lemma {:induction false} PartitionLines(miner: Rev -> MinerRun, cands: seq<BlameData>)
    ensures var p := PartitionOf(miner, cands);
      forall k :: k in p.groups ==> p.groups[k].lines == LinesFor(miner, cands, k)
  {
    if cands != [] {
      var init := cands[..|cands| - 1];
      var b := cands[|cands| - 1];
      PartitionAccepts(miner, init);
      PartitionLines(miner, init);
      var p := PartitionOf(miner, init);
      var locs := AllLocations(RefactoringsOf(miner, b.commit));
      MatchCountCovered(locs, b.filePath, b.lineNum);
      ScanEffect(p, b, locs);
      var q := PartitionOf(miner, cands);
      forall k | k in q.groups
        ensures q.groups[k].lines == LinesFor(miner, cands, k)
      {
        if k !in p.groups {
          LinesForAbsent(miner, init, k);
        }
      }
    }
  }

  /** All the facts about the candidate loop, for callers. */
  lemma PartitionFacts(miner: Rev -> MinerRun, cands: seq<BlameData>)
    ensures var p := PartitionOf(miner, cands);
      && Tidy(p)
      && (forall b :: b in p.accepted <==>
            b in cands && !Covered(AllLocations(RefactoringsOf(miner, b.commit)), b.filePath, b.lineNum))
      && (forall k :: k in p.groups ==> p.groups[k].lines == LinesFor(miner, cands, k))
      && (forall k :: k in p.groups ==>
            exists i :: 0 <= i < |cands| && cands[i].commit == p.groups[k].rev && cands[i].filePath == p.groups[k].filePath)
  {
    PartitionAccepts(miner, cands);
    PartitionLines(miner, cands);
    PartitionOrigins(miner, cands);
  }

  /** A key with no group has collected no lines. */
  lemma {:induction false} LinesForAbsent(miner: Rev -> MinerRun, cands: seq<BlameData>, key: string)
    requires key !in PartitionOf(miner, cands).groups
    ensures LinesFor(miner, cands, key) == []
  {
    if cands != [] {
      var init := cands[..|cands| - 1];
      var b := cands[|cands| - 1];
      var p0 := PartitionOf(miner, init);
      PartitionAccepts(miner, init);
      var locs := AllLocations(RefactoringsOf(miner, b.commit));
      ScanEffect(p0, b, locs);
      MatchCountCovered(locs, b.filePath, b.lineNum);
      LinesForAbsent(miner, init, key);
    }
  }

  /** With `@`-free revisions, a group holds only lines of candidates of its own commit and file. */
  lemma GroupsDoNotMix(miner: Rev -> MinerRun, cands: seq<BlameData>, k: string, i: nat)
    requires forall j :: 0 <= j < |cands| ==> '@' !in cands[j].commit
    requires k in PartitionOf(miner, cands).groups
    requires i < |cands| && Key(cands[i].commit, cands[i].filePath) == k
    ensures cands[i].commit == PartitionOf(miner, cands).groups[k].rev
    ensures cands[i].filePath == PartitionOf(miner, cands).groups[k].filePath
  {
    var g := PartitionOf(miner, cands).groups[k];
    PartitionAccepts(miner, cands);
    PartitionOrigins(miner, cands);
    var j :| 0 <= j < |cands| && cands[j].commit == g.rev && cands[j].filePath == g.filePath;
    KeyInjective(cands[i].commit, cands[i].filePath, g.rev, g.filePath);
  }

  // ---------------------------------------------------------------------------
  // `_blame`: the recursion
  // ---------------------------------------------------------------------------

  function RevSet(s: seq<Rev>): set<Rev>
  {
    set r | r in s
  }

  /** The revisions of the universe not yet ignored: the recursion's measure. */
  function Unignored(env: Env, ignore: Option<seq<Rev>>): nat
  {
    if ignore.None? then 0 else |env.universe - RevSet(ignore.value)|
  }

  lemma UnignoredShrinks(env: Env, ig: seq<Rev>, rev: Rev)
    requires rev in env.universe && rev !in ig
    ensures Unignored(env, Some(ig + [rev])) < Unignored(env, Some(ig))
  {
    var before := env.universe - RevSet(ig);
    assert env.universe - RevSet(ig + [rev]) == before - {rev};
    assert rev in before;
  }

  /** Whether some candidate's commit has a report that does not decode. */
  predicate AnyNotJson(miner: Rev -> MinerRun, cands: seq<BlameData>)
  {
    exists k :: 0 <= k < |cands| && EffectOf(miner(cands[k].commit)) == Raise
  }

  /** The first candidate commit (in iteration order) with no cache entry. */
  function FirstMissing(miner: Rev -> MinerRun, cands: seq<BlameData>): (r: Option<Rev>)
    ensures r.None? ==> forall k :: 0 <= k < |cands| ==> EffectOf(miner(cands[k].commit)).Store?
    ensures r.Some? ==>
      exists k :: 0 <= k < |cands| && cands[k].commit == r.value
        && !EffectOf(miner(cands[k].commit)).Store?
        && forall j :: 0 <= j < k ==> EffectOf(miner(cands[j].commit)).Store?
  {
    if cands == [] then None
    else if !EffectOf(miner(cands[0].commit)).Store? then Some(cands[0].commit)
    else
      var r := FirstMissing(miner, cands[1..]);
      assert forall k :: 1 <= k < |cands| ==> cands[k] == cands[1..][k - 1];
      r
  }

  /** The commits of the candidates, in candidate order. */
  function Commits(cands: seq<BlameData>): (r: seq<Rev>)
    ensures |r| == |cands| && forall k :: 0 <= k < |cands| ==> r[k] == cands[k].commit
  {
    if cands == [] then [] else Commits(cands[..|cands| - 1]) + [cands[|cands| - 1].commit]
  }

  /**
   * Running the miner over the candidates' distinct commits raises exactly when
   * some candidate's report does not decode; otherwise a candidate's commit is
   * cached exactly when its run stored something.
   */
  lemma ExtractOfCandidates(miner: Rev -> MinerRun, cache: Cache, cands: seq<BlameData>)
    requires Consistent(miner, cache)
    ensures var e := Extract(miner, cache, Distinct(Commits(cands)));
      && (e.raised <==> AnyNotJson(miner, cands))
      && (!e.raised ==> forall k :: 0 <= k < |cands| ==> (cands[k].commit in e.cache <==> EffectOf(miner(cands[k].commit)).Store?))
      && Consistent(miner, e.cache)
  {
    var commits := Distinct(Commits(cands));
    ExtractOutcome(miner, cache, commits);
    ExtractConsistent(miner, cache, commits);
    var e := Extract(miner, cache, commits);
    if e.raised {
      var i :| 0 <= i < |commits| && commits[i] !in cache && EffectOf(miner(commits[i])) == Raise;
      assert commits[i] in Commits(cands);
      var k :| 0 <= k < |cands| && Commits(cands)[k] == commits[i];
    }
    if AnyNotJson(miner, cands) {
      var k :| 0 <= k < |cands| && EffectOf(miner(cands[k].commit)) == Raise;
      assert Commits(cands)[k] == cands[k].commit;
      assert cands[k].commit in commits;
      var i :| 0 <= i < |commits| && commits[i] == cands[k].commit;
    }
    if !e.raised {
      forall k | 0 <= k < |cands|
        ensures cands[k].commit in e.cache <==> EffectOf(miner(cands[k].commit)).Store?
      {
        assert Commits(cands)[k] == cands[k].commit;
        assert cands[k].commit in commits;
        var i :| 0 <= i < |commits| && commits[i] == cands[k].commit;
      }
    }
  }

  /** The candidate loop stops at the first candidate whose commit has no entry. */
  lemma {:induction false} FirstMissingAt(miner: Rev -> MinerRun, cands: seq<BlameData>, k: nat)
    requires k < |cands| && !EffectOf(miner(cands[k].commit)).Store?
    requires forall j :: 0 <= j < k ==> EffectOf(miner(cands[j].commit)).Store?
    ensures FirstMissing(miner, cands) == Some(cands[k].commit)
  {
    if k > 0 {
      assert forall j :: 0 <= j < k - 1 ==> cands[1..][j] == cands[j + 1];
      FirstMissingAt(miner, cands[1..], k - 1);
    }
  }

  ghost predicate GroupsInUniverse(env: Env, order: seq<string>, groups: map<string, Group>)
  {
    forall k :: k in order ==> k in groups && groups[k].rev in env.universe
  }

  /** `_blame(rev, file_path, modified_lines, ignore_revs_list=ignore)`, with a consistent cache. */
  function BlameSpec(env: Env, rev: Rev, path: Path, lines: seq<int>, ignore: Option<seq<Rev>>): Result<set<BlameData>, Failure>
    requires WellFormed(env)
    decreases Unignored(env, ignore), 1, 0
  {
    var cands := env.baseBlame(rev, path, lines, ignore);
    if AnyNotJson(env.miner, cands) then Err(JsonDecodeError)
    else
      match FirstMissing(env.miner, cands)
      case Some(c) => Err(KeyError(c))
      case None =>
        var p := PartitionOf(env.miner, cands);
        PartitionFacts(env.miner, cands);
        assert GroupsInUniverse(env, p.order, p.groups);
        ReblameAll(env, p.order, p.groups, ignore, p.accepted)
  }

  /** `_blame` raises `JSONDecodeError` exactly when extracting the candidates' commits does. */
  lemma BlameRaises(env: Env, cache: Cache, rev: Rev, path: Path, lines: seq<int>, ignore: Option<seq<Rev>>)
    requires WellFormed(env) && Consistent(env.miner, cache)
    requires Extract(env.miner, cache, Distinct(Commits(env.baseBlame(rev, path, lines, ignore)))).raised
    ensures BlameSpec(env, rev, path, lines, ignore) == Err(JsonDecodeError)
  {
    ExtractOfCandidates(env.miner, cache, env.baseBlame(rev, path, lines, ignore));
  }

  /** The first candidate whose commit is absent from the cache after extraction raises `KeyError`. */
  lemma BlameMissing(env: Env, cache: Cache, rev: Rev, path: Path, lines: seq<int>, ignore: Option<seq<Rev>>, at: nat)
    requires WellFormed(env) && Consistent(env.miner, cache)
    requires var cands := env.baseBlame(rev, path, lines, ignore);
      var e := Extract(env.miner, cache, Distinct(Commits(cands)));
      && !e.raised && at < |cands| && cands[at].commit !in e.cache
      && forall j :: 0 <= j < at ==> cands[j].commit in e.cache
    ensures BlameSpec(env, rev, path, lines, ignore) == Err(KeyError(env.baseBlame(rev, path, lines, ignore)[at].commit))
  {
    var cands := env.baseBlame(rev, path, lines, ignore);
    ExtractOfCandidates(env.miner, cache, cands);
    FirstMissingAt(env.miner, cands, at);
  }

  /** With every candidate's commit cached, `_blame` is the reblame loop over its partition. */
  lemma BlameReblames(env: Env, cache: Cache, rev: Rev, path: Path, lines: seq<int>, ignore: Option<seq<Rev>>)
    requires WellFormed(env) && Consistent(env.miner, cache)
    requires var cands := env.baseBlame(rev, path, lines, ignore);
      var e := Extract(env.miner, cache, Distinct(Commits(cands)));
      && !e.raised && forall j :: 0 <= j < |cands| ==> cands[j].commit in e.cache
    ensures var p := PartitionOf(env.miner, env.baseBlame(rev, path, lines, ignore));
      && GroupsInUniverse(env, p.order, p.groups)
      && BlameSpec(env, rev, path, lines, ignore) == ReblameAll(env, p.order, p.groups, ignore, p.accepted)
  {
    var cands := env.baseBlame(rev, path, lines, ignore);
    ExtractOfCandidates(env.miner, cache, cands);
    PartitionFacts(env.miner, cands);
  }

  /** The reblame loop over `to_reblame` in insertion order, starting from the accepted set `acc`. */
  function ReblameAll(env: Env, order: seq<string>, groups: map<string, Group>, ignore: Option<seq<Rev>>,
                      acc: set<BlameData>): Result<set<BlameData>, Failure>
    requires WellFormed(env)
    requires GroupsInUniverse(env, order, groups)
    decreases Unignored(env, ignore), 0, |order|
  {
    if order == [] then Ok(acc)
    else if ignore.None? then Err(TypeError)
    else
      var ig := ignore.value;
      var g := groups[order[0]];
      if g.rev in ig then ReblameAll(env, order[1..], groups, ignore, acc)
      else
        UnignoredShrinks(env, ig, g.rev);
        match BlameSpec(env, g.rev, g.filePath, g.lines, Some(ig + [g.rev]))
        case Err(e) => Err(e)
        case Ok(s) => ReblameAll(env, order[1..], groups, ignore, acc + s)
  }

  /** Every attribution the base blame returns for this call has its commit in `cache`. */
  ghost predicate CandidatesCached(env: Env, rev: Rev, path: Path, lines: seq<int>, ignore: Option<seq<Rev>>,
                                   cache: Cache)
  {
    forall b :: b in env.baseBlame(rev, path, lines, ignore) ==> b.commit in cache
  }

  /** The same for the reblame of each group of `ks` that the cycle guard lets through. */
  ghost predicate GroupsCached(env: Env, ks: seq<string>, groups: map<string, Group>, ignore: Option<seq<Rev>>,
                               cache: Cache)
  {
    forall k :: k in ks && k in groups && ignore.Some? && groups[k].rev !in ignore.value ==>
      CandidatesCached(env, groups[k].rev, groups[k].filePath, groups[k].lines, Some(ignore.value + [groups[k].rev]), cache)
  }

  /** No attribution in `s` lies in a refactoring location of its own commit. */
  ghost predicate Sound(env: Env, s: set<BlameData>)
  {
    forall b :: b in s ==>
      EffectOf(env.miner(b.commit)).Store?
      && !Covered(AllLocations(RefactoringsOf(env.miner, b.commit)), b.filePath, b.lineNum)
  }

  /** Nothing `_blame` returns is covered by a refactoring of its own commit, at any depth. */
  lemma {:induction false} BlameSound(env: Env, rev: Rev, path: Path, lines: seq<int>, ignore: Option<seq<Rev>>)
    requires WellFormed(env)
    ensures BlameSpec(env, rev, path, lines, ignore).Ok? ==> Sound(env, BlameSpec(env, rev, path, lines, ignore).value)
    decreases Unignored(env, ignore), 1, 0
  {
    var cands := env.baseBlame(rev, path, lines, ignore);
    if !AnyNotJson(env.miner, cands) && FirstMissing(env.miner, cands).None? {
      var p := PartitionOf(env.miner, cands);
      PartitionFacts(env.miner, cands);
      forall b | b in p.accepted ensures EffectOf(env.miner(b.commit)).Store? {
        var k :| 0 <= k < |cands| && cands[k] == b;
      }
      ReblameAllSound(env, p.order, p.groups, ignore, p.accepted);
    }
  }

  lemma {:induction false} ReblameAllSound(env: Env, order: seq<string>, groups: map<string, Group>,
                                           ignore: Option<seq<Rev>>, acc: set<BlameData>)
    requires WellFormed(env)
    requires GroupsInUniverse(env, order, groups)
    requires Sound(env, acc)
    ensures ReblameAll(env, order, groups, ignore, acc).Ok? ==> Sound(env, ReblameAll(env, order, groups, ignore, acc).value)
    decreases Unignored(env, ignore), 0, |order|
  {
    if order != [] && ignore.Some? {
      var ig := ignore.value;
      var g := groups[order[0]];
      if g.rev in ig {
        ReblameAllSound(env, order[1..], groups, ignore, acc);
      } else {
        UnignoredShrinks(env, ig, g.rev);
        BlameSound(env, g.rev, g.filePath, g.lines, Some(ig + [g.rev]));
        match BlameSpec(env, g.rev, g.filePath, g.lines, Some(ig + [g.rev]))
        case Err(_) =>
        case Ok(s) => ReblameAllSound(env, order[1..], groups, ignore, acc + s);
      }
    }
  }

  /** What the reblame of group `g` contributes: its result when the cycle guard lets it through and it succeeds. */
  ghost function SubResult(env: Env, g: Group, ignore: Option<seq<Rev>>): set<BlameData>
    requires WellFormed(env)
  {
    if ignore.Some? && g.rev !in ignore.value then
      match BlameSpec(env, g.rev, g.filePath, g.lines, Some(ignore.value + [g.rev]))
      case Ok(s) => s
      case Err(_) => {}
    else {}
  }

  /** The contributions of the groups in `order`, gathered from the front. */
  ghost function Gathered(env: Env, order: seq<string>, groups: map<string, Group>, ignore: Option<seq<Rev>>): set<BlameData>
    requires WellFormed(env)
    requires GroupsInUniverse(env, order, groups)
  {
    if order == [] then {}
    else SubResult(env, groups[order[0]], ignore) + Gathered(env, order[1..], groups, ignore)
  }

  /** A gathered line comes from the reblame of one of the groups, and every such line is gathered. */
  lemma {:induction false} GatheredMembers(env: Env, order: seq<string>, groups: map<string, Group>,
                                           ignore: Option<seq<Rev>>, b: BlameData)
    requires WellFormed(env)
    requires GroupsInUniverse(env, order, groups)
    ensures b in Gathered(env, order, groups, ignore) <==>
      exists i :: 0 <= i < |order| && b in SubResult(env, groups[order[i]], ignore)
    decreases |order|
  {
    if order != [] {
      var rest := order[1..];
      GatheredMembers(env, rest, groups, ignore, b);
      if exists i :: 0 <= i < |rest| && b in SubResult(env, groups[rest[i]], ignore) {
        var i :| 0 <= i < |rest| && b in SubResult(env, groups[rest[i]], ignore);
        assert order[i + 1] == rest[i];
      }
      if exists i :: 0 <= i < |order| && b in SubResult(env, groups[order[i]], ignore) {
        var i :| 0 <= i < |order| && b in SubResult(env, groups[order[i]], ignore);
        if i > 0 {
          assert order[i] == rest[i - 1];
        }
      }
    }
  }

  /**
   * The reblame loop returns the accepted set together with the result of every
   * group the cycle guard lets through, and nothing else; it succeeds only if
   * each of those reblames succeeds.
   */
  lemma {:induction false} ReblameAllUnion(env: Env, order: seq<string>, groups: map<string, Group>,
                                           ignore: Option<seq<Rev>>, acc: set<BlameData>)
    requires WellFormed(env)
    requires GroupsInUniverse(env, order, groups)
    ensures var r := ReblameAll(env, order, groups, ignore, acc);
      r.Ok? ==> r.value == acc + Gathered(env, order, groups, ignore)
    ensures var r := ReblameAll(env, order, groups, ignore, acc);
      r.Ok? ==> forall i :: 0 <= i < |order| && ignore.Some? && groups[order[i]].rev !in ignore.value ==>
        BlameSpec(env, groups[order[i]].rev, groups[order[i]].filePath, groups[order[i]].lines,
                  Some(ignore.value + [groups[order[i]].rev])).Ok?
    decreases |order|
  {
    if order != [] && ignore.Some? {
      var ig := ignore.value;
      var g := groups[order[0]];
      var rest := order[1..];
      assert forall k :: k in rest ==> k in order;
      assert forall i :: 1 <= i < |order| ==> order[i] == rest[i - 1];
      if g.rev in ig {
        ReblameAllUnion(env, rest, groups, ignore, acc);
      } else {
        var sub := BlameSpec(env, g.rev, g.filePath, g.lines, Some(ig + [g.rev]));
        if sub.Ok? {
          ReblameAllUnion(env, rest, groups, ignore, acc + sub.value);
        }
      }
    }
  }

  /**
   * The ignore lists of all the `_blame` calls made from a call with list `ig`
   * (itself included), following the recursion up to its first failure.
   */
  ghost function IgnoreLists(env: Env, rev: Rev, path: Path, lines: seq<int>, ig: seq<Rev>): set<seq<Rev>>
    requires WellFormed(env)
    decreases Unignored(env, Some(ig)), 1, 0
  {
    var cands := env.baseBlame(rev, path, lines, Some(ig));
    if AnyNotJson(env.miner, cands) || FirstMissing(env.miner, cands).Some? then {ig}
    else
      var p := PartitionOf(env.miner, cands);
      PartitionFacts(env.miner, cands);
      assert GroupsInUniverse(env, p.order, p.groups);
      {ig} + IgnoreListsAll(env, p.order, p.groups, ig)
  }

  ghost function IgnoreListsAll(env: Env, order: seq<string>, groups: map<string, Group>, ig: seq<Rev>): set<seq<Rev>>
    requires WellFormed(env)
    requires GroupsInUniverse(env, order, groups)
    decreases Unignored(env, Some(ig)), 0, |order|
  {
    if order == [] then {}
    else
      var g := groups[order[0]];
      if g.rev in ig then IgnoreListsAll(env, order[1..], groups, ig)
      else
        UnignoredShrinks(env, ig, g.rev);
        IgnoreLists(env, g.rev, g.filePath, g.lines, ig + [g.rev])
          + (if BlameSpec(env, g.rev, g.filePath, g.lines, Some(ig + [g.rev])).Ok?
             then IgnoreListsAll(env, order[1..], groups, ig) else {})
  }

  /**
   * `l` extends `ig` by revisions of the universe, keeps it duplicate-free, and
   * is longer by at most the number of revisions `ig` does not yet ignore.
   */
  ghost predicate GrowsFrom(env: Env, ig: seq<Rev>, l: seq<Rev>)
  {
    && |ig| <= |l| && l[..|ig|] == ig
    && (forall i :: |ig| <= i < |l| ==> l[i] in env.universe)
    && (NoDuplicates(ig) ==> NoDuplicates(l))
    && |l| - |ig| <= Unignored(env, Some(ig))
  }

  lemma GrowsFromStep(env: Env, ig: seq<Rev>, rev: Rev, l: seq<Rev>)
    requires rev in env.universe && rev !in ig
    requires GrowsFrom(env, ig + [rev], l)
    ensures GrowsFrom(env, ig, l)
  {
    var c := ig + [rev];
    UnignoredShrinks(env, ig, rev);
    GrowsPrefix(ig, c, l);
    assert l[|ig|] == c[|ig|] == rev;
    if NoDuplicates(ig) {
      assert NoDuplicates(c);
    }
  }

  lemma GrowsPrefix(ig: seq<Rev>, c: seq<Rev>, l: seq<Rev>)
    requires |ig| <= |c| <= |l| && c[..|ig|] == ig && l[..|c|] == c
    ensures l[..|ig|] == ig
  {
    assert l[..|ig|] == l[..|c|][..|ig|];
  }

  /**
   * Along every recursive path the ignore list strictly grows, stays
   * duplicate-free, and never outgrows the revisions the base blame can
   * return: the recursion depth is bounded by `Unignored`.
   */
  lemma {:induction false} IgnoreListsGrow(env: Env, rev: Rev, path: Path, lines: seq<int>, ig: seq<Rev>)
    requires WellFormed(env)
    ensures ig in IgnoreLists(env, rev, path, lines, ig)
    ensures forall l :: l in IgnoreLists(env, rev, path, lines, ig) ==> GrowsFrom(env, ig, l)
    decreases Unignored(env, Some(ig)), 1, 0
  {
    var cands := env.baseBlame(rev, path, lines, Some(ig));
    assert ig[..|ig|] == ig;
    if !(AnyNotJson(env.miner, cands) || FirstMissing(env.miner, cands).Some?) {
      var p := PartitionOf(env.miner, cands);
      PartitionFacts(env.miner, cands);
      IgnoreListsAllGrow(env, p.order, p.groups, ig);
    }
  }

  lemma {:induction false} IgnoreListsAllGrow(env: Env, order: seq<string>, groups: map<string, Group>, ig: seq<Rev>)
    requires WellFormed(env)
    requires GroupsInUniverse(env, order, groups)
    ensures forall l :: l in IgnoreListsAll(env, order, groups, ig) ==> GrowsFrom(env, ig, l) && |l| > |ig|
    decreases Unignored(env, Some(ig)), 0, |order|
  {
    if order != [] {
      var g := groups[order[0]];
      assert order[0] in order;
      if g.rev in ig {
        IgnoreListsAllGrow(env, order[1..], groups, ig);
      } else {
        UnignoredShrinks(env, ig, g.rev);
        IgnoreListsGrow(env, g.rev, g.filePath, g.lines, ig + [g.rev]);
        IgnoreListsAllGrow(env, order[1..], groups, ig);
        forall l | l in IgnoreLists(env, g.rev, g.filePath, g.lines, ig + [g.rev])
          ensures GrowsFrom(env, ig, l) && |l| > |ig|
        {
          GrowsFromStep(env, ig, g.rev, l);
        }
      }
    }
  }

  /**
   * A successful `_blame` returns the union of the candidates it accepted at its
   * own level and the results of the reblames the cycle guard let through.
   */
  lemma BlameUnion(env: Env, rev: Rev, path: Path, lines: seq<int>, ignore: Option<seq<Rev>>)
    requires WellFormed(env)
    ensures var r := BlameSpec(env, rev, path, lines, ignore);
      var cands := env.baseBlame(rev, path, lines, ignore);
      var p := PartitionOf(env.miner, cands);
      r.Ok? ==>
        && GroupsInUniverse(env, p.order, p.groups)
        && forall b :: b in r.value <==>
             (b in cands && !Covered(AllLocations(RefactoringsOf(env.miner, b.commit)), b.filePath, b.lineNum))
             || exists i :: 0 <= i < |p.order| && b in SubResult(env, p.groups[p.order[i]], ignore)
  {
    var cands := env.baseBlame(rev, path, lines, ignore);
    var p := PartitionOf(env.miner, cands);
    PartitionFacts(env.miner, cands);
    assert GroupsInUniverse(env, p.order, p.groups);
    if BlameSpec(env, rev, path, lines, ignore).Ok? {
      ReblameAllUnion(env, p.order, p.groups, ignore, p.accepted);
      forall b {
        GatheredMembers(env, p.order, p.groups, ignore, b);
      }
    }
  }

  /** The cycle guard: a group whose revision is already ignored is skipped, so with all skipped the result is the accepted set. */
  lemma {:induction false} CycleGuardSkips(env: Env, order: seq<string>, groups: map<string, Group>,
                                           ig: seq<Rev>, acc: set<BlameData>)
    requires WellFormed(env)
    requires GroupsInUniverse(env, order, groups)
    requires forall k :: k in order ==> groups[k].rev in ig
    ensures ReblameAll(env, order, groups, Some(ig), acc) == Ok(acc)
    decreases |order|
  {
    if order != [] {
      assert order[0] in order;
      CycleGuardSkips(env, order[1..], groups, ig, acc);
    }
  }

  /** A reblame reached without an ignore list raises `TypeError`. */
  lemma NoIgnoreListFails(env: Env, order: seq<string>, groups: map<string, Group>, acc: set<BlameData>)
    requires WellFormed(env)
    requires GroupsInUniverse(env, order, groups)
    requires order != []
    ensures ReblameAll(env, order, groups, None, acc) == Err(TypeError)
  {
  }
}
