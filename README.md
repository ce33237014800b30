# pyszz: refactoring-aware SZZ and the issue extractor's text helpers, in Dafny

This project models two parts of pyszz, a Python implementation of the SZZ
family of algorithms. SZZ finds the commits that introduced the lines a
bug-fix commit changed.

**`RASZZ` (ra_szz.py).** This is the refactoring-aware variant (RA-SZZ*).
- It keeps a per-object cache, `refactorings`, from a commit hash to the
  refactorings RefactoringMiner reports for that commit. The cache is filled
  lazily by `_extract_refactorings`.
- `get_impacted_files` removes from the fix commit's impacted files every
  modified line that lies inside a right-side location of one of the fix
  commit's own refactorings. It then drops the files left without lines.
- `_blame` runs the base blame. It keeps each attribution that no refactoring
  of the attributed commit covers. It groups the covered ones by
  `commit@file` into `ReblameCandidate`s, one line per covering location.
  Each group is blamed again at its own commit, with that commit appended to a
  copy of the ignore list. A group whose commit is already ignored is skipped:
  this is the cycle guard.

**The issue extractor (issues_extractor.py).**
- `fix_renamed_files` expands git rename notation.
- `_clean_commit_message` cleans a commit message.
- The nested `replace` and `get_bug_num_from_comit_text` tokenize commit text
  into a bug number.
- `CommittedFile.__init__` derives a file record's fields.
- `JiraIssue.get_name_or_default` reads a Jira field.
- `_get_commits_files` parses `git log --numstat` text.

Layout:
- `wrappers.dfy` holds `Option` and `Result`.
- `pystrings.dfy` (module `PyStrings`) holds the Python `str` operations the
  code uses, with their laws:
  - `split`, `join`, `replace`, `split()`, `strip`, `lower`;
  - `isdigit`/`isnumeric`, `int`, `in`.
- `ra_szz_spec.dfy` (module `RaSzzSpec`) holds the data model, the
  collaborators as parameters, a functional specification of the three
  `RASZZ` operations, and the lemmas about them.
- `ra_szz.dfy` (module `RaSzz`) holds the classes `RASZZ`, `ImpactedFile` and
  `ReblameCandidate`. Their methods are the source's loops and updates in
  place, each proved equal to the specification.
- `issues_extractor.dfy` (module `IssuesExtractor`) holds the extractor's
  helpers:
  - as loops where the source loops (`FixRenamedFiles`, `ReplaceChars`,
    `GetBugNum`, `ReadChunk`, `GetCommitsFiles`);
  - as functions where the source is an expression.

The collaborators are parameters, gathered in `RaSzzSpec.Env`:
- **RefactoringMiner.** A function from a commit to the outcome of running the
  tool on it: a decoded report, output that is not JSON, a timeout, or a
  failed process.
- **The base blame (MA-SZZ's `_blame`).** A function from revision, path,
  lines and ignore list to the sequence in which its result set is iterated.
  The revisions it returns come from a finite `universe`, which bounds the
  recursion.

The base impacted files of `get_impacted_files` are an input sequence of
`ImpactedFile` objects.

Behaviours kept as the code has them:
- **Process failure.** A `CalledProcessError` stores no cache entry, so the
  later lookup raises `KeyError` (`Failure.KeyError`).
- **Undecodable output.** Output that is not JSON escapes as
  `JSONDecodeError`.
- **No ignore list.** A reblame reached with `ignore_revs_list=None` raises
  `TypeError`.
- **The brace test.** `"{" and "}" in file` tests for `}` only.
- **The last numstat line.** `d[1:-1]` drops the last numstat line of the last
  commit when the log has no trailing newline. `LastChunkDropsLastLine`
  states this.

## Model

| member | source | states |
|---|---|---|
| RaSzzSpec.Distinct | ra_szz.py:94 | `set(...)` iterated: no repeats, and exactly the elements of the input |
| RaSzzSpec.ExtractKeepsCached | ra_szz.py:28-29 | a commit already cached is never handed to the miner, and its entry is unchanged |
| RaSzzSpec.ExtractQueries | ra_szz.py:28-36 | each queried commit was uncached and among `commits`; it is queried again only if its earlier run stored nothing; each stored run ends up cached |
| RaSzzSpec.ExtractLogTidy | ra_szz.py:28-36 | over the object's lifetime, no commit whose run stored something is queried twice, and every such commit stays cached |
| RaSzzSpec.ExtractConsistent | ra_szz.py:33-45 | every cache entry is what its commit's miner run stores |
| RaSzzSpec.ExtractOutcome | ra_szz.py:28-45 | raises iff some uncached commit's output does not decode; otherwise a commit ends cached iff it was cached or its run stored something; nothing else is added |
| RaSzzSpec.Without | ra_szz.py:65 | the list comprehension never lengthens the list |
| RaSzzSpec.KeepUncoveredMembers | ra_szz.py:54-65 | a line is kept iff it was in the input and no location of its path covers it |
| RaSzzSpec.KeepUncoveredNone | ra_szz.py:54-65 | with no locations every line is kept, in order |
| RaSzzSpec.KeepUncoveredAppend | ra_szz.py:61-65 | filtering distributes over concatenation, so kept lines keep their input order |
| RaSzzSpec.KeepUncoveredStep | ra_szz.py:59-65 | removing one more location's `lines_to_remove` is filtering by the longer location list |
| RaSzzSpec.WithoutCovered | ra_szz.py:60-65 | removing the covered lines of a superset list is filtering by that location |
| RaSzzSpec.KeepTwice | ra_szz.py:55-65 | filtering by `locs` and then by one location is filtering by `locs + [location]` |
| RaSzzSpec.KeyInjective | ra_szz.py:110-111 | `hexsha@file_path` keys identify their commit and file when hashes hold no `@` |
| RaSzzSpec.MatchCountCovered | ra_szz.py:102-108 | a candidate has at least one matching location iff some location covers it |
| RaSzzSpec.ExtendsTrans | ra_szz.py:110-113 | two successive additions to one group are one addition of both lines |
| RaSzzSpec.AddLineEffect | ra_szz.py:110-113 | a match creates the group at the end of the order or appends the line; no other group changes |
| RaSzzSpec.ScanEffect | ra_szz.py:102-114 | scanning a candidate appends its line once per covering location, to its own group only |
| RaSzzSpec.ScanUncovered | ra_szz.py:101-117 | a candidate no location covers leaves `to_reblame` as it was |
| RaSzzSpec.PartitionAccepts | ra_szz.py:100-117 | `result_blame_data` holds exactly the candidates uncovered by their own commit's refactorings; the keys are listed once each |
| RaSzzSpec.PartitionOrigins | ra_szz.py:108-111 | each group belongs to the commit and file of some candidate |
| RaSzzSpec.PartitionLines | ra_szz.py:108-113 | each group holds, in candidate order, every covered line with its key, once per covering location |
| RaSzzSpec.PartitionFacts | ra_szz.py:100-117 | the facts above, together |
| RaSzzSpec.LinesForAbsent | ra_szz.py:110-113 | a key with no group collected no lines |
| RaSzzSpec.GroupsDoNotMix | ra_szz.py:108-113 | a group holds only lines of candidates of its own commit and file |
| RaSzzSpec.UnignoredShrinks | ra_szz.py:121-124 | appending an un-ignored universe revision to the ignore list shrinks the recursion measure |
| RaSzzSpec.FirstMissing | ra_szz.py:100-102 | the first candidate whose commit has no cache entry, or none when every commit is stored |
| RaSzzSpec.Commits | ra_szz.py:94 | the candidates' commits, one per candidate, in order |
| RaSzzSpec.ExtractOfCandidates | ra_szz.py:94-95 | extracting the candidates' distinct commits raises iff one of them does not decode; otherwise a candidate's commit is cached iff its run stored something |
| RaSzzSpec.FirstMissingAt | ra_szz.py:100-102 | the lookup fails at the first candidate whose commit is not stored |
| RaSzzSpec.BlameRaises | ra_szz.py:94-95 | `_blame` raises `JSONDecodeError` when the extraction does |
| RaSzzSpec.BlameMissing | ra_szz.py:100-102 | `_blame` raises `KeyError` for the first candidate commit missing from the cache |
| RaSzzSpec.BlameReblames | ra_szz.py:97-139 | with every commit cached, `_blame` is the reblame loop over its `to_reblame`, starting from the accepted set |
| RaSzzSpec.BlameSound | ra_szz.py:100-139 | no attribution `_blame` returns, at any depth, is covered by a refactoring location of its own commit |
| RaSzzSpec.ReblameAllSound | ra_szz.py:119-139 | the reblame loop keeps the result free of covered attributions |
| RaSzzSpec.GatheredMembers | ra_szz.py:119-137 | a gathered attribution comes from the reblame of some group, and every such one is gathered |
| RaSzzSpec.ReblameAllUnion | ra_szz.py:119-139 | on success the result is the accepted set plus every group result the cycle guard lets through, and each of those reblames succeeded |
| RaSzzSpec.GrowsFromStep | ra_szz.py:123-124 | a list grown from `ig + [rev]` is grown from `ig` |
| RaSzzSpec.IgnoreListsGrow | ra_szz.py:119-136 | along every recursive path the ignore list extends the caller's, stays duplicate-free, and grows by at most the number of un-ignored universe revisions |
| RaSzzSpec.IgnoreListsAllGrow | ra_szz.py:119-136 | every recursive call's ignore list is strictly longer than the caller's and grows from it |
| RaSzzSpec.BlameUnion | ra_szz.py:100-139 | a successful `_blame` returns exactly the locally accepted candidates and the results of the reblames let through |
| RaSzzSpec.CycleGuardSkips | ra_szz.py:121-122 | groups whose commits are all already ignored are skipped, so the result is the accepted set |
| RaSzzSpec.NoIgnoreListFails | ra_szz.py:121 | a reblame reached without an ignore list raises `TypeError` |
| RaSzz.ReblameCandidate.constructor | ra_szz.py:141-145 | the candidate holds its revision, file and lines |
| RaSzz.LinesToRemove | ra_szz.py:60-64 | `lines_to_remove` is exactly the file's lines the location covers |
| RaSzz.StripLocation | ra_szz.py:59-65 | every file loses exactly the lines one location covers |
| RaSzz.StripRefactored | ra_szz.py:54-65 | every file keeps exactly its lines no location of the refactorings covers, in order |
| RaSzz.NonEmptyFiles | ra_szz.py:67 | kept files are exactly the input files with lines left, without repeats |
| RaSzz.AddToReblame | ra_szz.py:110-113 | the `to_reblame` objects mirror the specification's step; existing objects stay or new ones are fresh |
| RaSzz.ScanRefactoring | ra_szz.py:103-114 | the location loop equals the specification scan, and `can_add` holds iff no location matched |
| RaSzz.ScanCandidate | ra_szz.py:101-114 | the refactoring loop equals the specification scan; `can_add` holds iff the candidate is uncovered, and then nothing changed |
| RaSzz.FilterCandidate | ra_szz.py:100-117 | one turn of the candidate loop advances the state to the next prefix's partition |
| RaSzz.CollectCandidates | ra_szz.py:100-117 | the candidate loop reports the first missing commit as `KeyError`, or ends in the partition of all candidates with fresh group objects |
| RaSzz.RASZZ.constructor | ra_szz.py:21-23 | the object starts with an empty refactoring cache |
| RaSzz.RASZZ.ExtractRefactorings | ra_szz.py:25-45 | the cache becomes what the specification's extraction gives, the raise matches, and the lifetime log of miner runs stays tidy |
| RaSzz.RASZZ.ExtractLoop | ra_szz.py:28-45 | the loop ends in the specification's extraction |
| RaSzz.RASZZ.ExtractStep | ra_szz.py:28-45 | one turn skips a cached commit or runs the miner, and the rest still ends in the same extraction |
| RaSzz.RASZZ.RunMiner | ra_szz.py:31-45 | stores the report's first commit's refactorings, `[]` for a malformed report or a timeout, nothing for a failed process, and raises on undecodable output |
| RaSzz.RASZZ.GetImpactedFiles | ra_szz.py:47-68 | only the fix commit is extracted; the errors are `JSONDecodeError` or `KeyError` exactly per the miner outcome; on success each file keeps exactly its uncovered lines in order, and the result is the files with lines left |
| RaSzz.RASZZ.Blame | ra_szz.py:70-139 | equals the recursive specification `BlameSpec`; cached entries are never changed; on success every commit the base blame returned is cached |
| RaSzz.RASZZ.ReblameGroups | ra_szz.py:119-139 | the reblame loop equals the specification's loop over `to_reblame` in insertion order; on success, for every group the cycle guard let through, the commits of its base blame are cached |
| RaSzz.RASZZ.ReblameOne | ra_szz.py:119-137 | one group: `TypeError` without a list, a skip when its commit is ignored, else the recursive blame with the commit appended to a copy, whose base blame's commits end up cached |
| PyStrings.SplitPiecesFree | issues_extractor.py:77 | no piece of `split(sep)` contains `sep` |
| PyStrings.JoinSplit | issues_extractor.py:129 | `sep.join(s.split(sep)) == s` |
| PyStrings.ReplaceIsSplitJoin | issues_extractor.py:129 | `s.replace(old, new) == new.join(s.split(old))` |
| PyStrings.WordsAreWords | issues_extractor.py:78 | every piece of `split()` is non-empty and free of whitespace |
| PyStrings.WordsOfJoin | issues_extractor.py:78 | `split()` undoes `' '.join` of such words |
| PyStrings.JoinedWordsSingleSpaced | issues_extractor.py:78 | `' '.join` of such words has single spaces only between words |
| PyStrings.StripPadded | issues_extractor.py:101 | `strip()` removes exactly the whitespace padding of a trimmed text |
| PyStrings.LowerIsLower | issues_extractor.py:52 | `lower()` leaves no upper-case ASCII letter and is idempotent |
| PyStrings.DecimalRoundTrip | issues_extractor.py:113 | `int(str(n)) == n` for the digit parser |
| PyStrings.ParseIntPadded | issues_extractor.py:113-114 | digits with any whitespace around them read as their value, leading zeros included |
| PyStrings.ParseIntPaddedSigned | issues_extractor.py:114 | a `+` or `-` before the digits, whitespace around them, gives the signed value |
| PyStrings.LeadingZero | issues_extractor.py:113-114 | a leading `0` does not change a numeral's value |
| PyStrings.ParseIntDecimal | issues_extractor.py:114 | `int(str(n)) == n` |
| PyStrings.ParseIntNegative | issues_extractor.py:114 | `int("-" + str(n)) == -n` |
| PyStrings.ParseIntRejects | issues_extractor.py:114 | a text without a digit raises `ValueError` |
| IssuesExtractor.GetNameOrDefault | issues_extractor.py:50-53 | `default` without a value; otherwise the name lower-cased: same length, no capital letter, same letters up to case |
| IssuesExtractor.CleanCommitMessageCutsAtMarker | issues_extractor.py:75-77 | with `git-svn-id`, exactly the text before its first occurrence |
| IssuesExtractor.CleanCommitMessageNormalises | issues_extractor.py:75-78 | otherwise single-spaced, trimmed, with the same words |
| IssuesExtractor.ReplaceChars | issues_extractor.py:182-186 | the loop applies one `str.replace` per character, in order |
| IssuesExtractor.ReplaceOneChar | issues_extractor.py:185 | `replace` of one character substitutes every occurrence and nothing else |
| IssuesExtractor.ReplaceAllIsSubst | issues_extractor.py:182-186 | when the replacement holds none of the characters, each of them becomes the replacement and every other character stays |
| IssuesExtractor.SubstLeavesNone | issues_extractor.py:182-186 | then none of the characters is left |
| IssuesExtractor.FirstIssue | issues_extractor.py:192-196 | the result is `"0"` or one of the tokens that is all digits and an issue id |
| IssuesExtractor.GetBugNum | issues_extractor.py:188-196 | the token loop returns the first qualifying token of the cleaned text, or `"0"` |
| IssuesExtractor.FirstIssueNone | issues_extractor.py:192-196 | `"0"` when no token qualifies |
| IssuesExtractor.FirstIssueIsFirst | issues_extractor.py:192-195 | otherwise the first qualifying token |
| IssuesExtractor.BugTextHasNoPunctuation | issues_extractor.py:189-190 | no dropped or spaced-out character is left in the text |
| IssuesExtractor.ClassRun | issues_extractor.py:97 | the longest prefix inside `[\.a-zA-Z_/\-0-9]` |
| IssuesExtractor.MatchLen | issues_extractor.py:97 | a brace-group match is at least 6 characters and within the text |
| IssuesExtractor.GroupMatches | issues_extractor.py:97 | a group `{a => b}` of class characters at the start is matched whole |
| IssuesExtractor.MatchIsGroup | issues_extractor.py:97 | every match is such a group |
| IssuesExtractor.SubGroupsPrefix | issues_extractor.py:97 | `re.sub` leaves a prefix without `{` alone |
| IssuesExtractor.SubGroupsNone | issues_extractor.py:97 | text without `{` is left as it is |
| IssuesExtractor.GroupSub | issues_extractor.py:97 | the one group of `pre{a => b}post` is replaced and what surrounds it is kept |
| IssuesExtractor.FixOne | issues_extractor.py:93-104 | only a name with both `=>` and `}` can raise; a success yields at least one name (the exact names are stated by `FixRenamedPassThrough`, `FullPathChange` and `BraceRename`) |
| IssuesExtractor.FixRenamed | issues_extractor.py:91-105 | success yields at least as many names as files |
| IssuesExtractor.FixRenamedFiles | issues_extractor.py:81-105 | the loop equals `FixRenamed`, stopping at the first error |
| IssuesExtractor.FixRenamedErr | issues_extractor.py:92-98 | once a file raises, the later files are never looked at |
| IssuesExtractor.FixRenamedPassThrough | issues_extractor.py:92-104 | names without `=>` pass through unchanged and in order |
| IssuesExtractor.FixRenamedAppend | issues_extractor.py:91-105 | each file's names follow those of the files before it |
| IssuesExtractor.FullPathChange | issues_extractor.py:99-101 | `src=>dst` without `}` gives both paths, stripped |
| IssuesExtractor.BraceRename | issues_extractor.py:82-98 | `pre{a => b}post` gives the path through `a`, then the path through `b` |
| IssuesExtractor.NewCommittedFile | issues_extractor.py:109-119 | keeps the sha; the name is the first name from `fix_renamed_files`; `is_java` iff it ends in `.java`; `is_test` iff it contains `test`; non-numeric insertions give 0 and 0 whatever the deletions hold; numeric insertions give their value and deletions are `int(deletions)`; it raises only from `fix_renamed_files` or from `int(deletions)` |
| IssuesExtractor.NewCommittedFileCounts | issues_extractor.py:112-114 | numeric counts are read back as written |
| IssuesExtractor.NewCommittedFileNonNumeric | issues_extractor.py:112-118 | any non-numeric insertions (`-` for a binary file) give 0 and 0, whatever the deletions hold |
| IssuesExtractor.NewCommittedFileBadDeletions | issues_extractor.py:112-114 | numeric insertions with unparsable deletions raise `ValueError` |
| IssuesExtractor.CommittedFiles | issues_extractor.py:135 | one file per name, each with the commit's sha and its flags |
| IssuesExtractor.LineFiles | issues_extractor.py:133-135 | every file of a numstat line carries the commit's sha and its flags |
| IssuesExtractor.LinesFiles | issues_extractor.py:132-135 | likewise for all the lines of a chunk |
| IssuesExtractor.ChunkEntry | issues_extractor.py:129-135 | every file of a chunk belongs to the chunk's sha |
| IssuesExtractor.Chunks | issues_extractor.py:128-135 | every file listed under a sha belongs to that sha |
| IssuesExtractor.CommitsFiles | issues_extractor.py:125-136 | every file belongs to its sha, and only shas with files are kept |
| IssuesExtractor.NonEmpty | issues_extractor.py:136 | exactly the entries with a non-empty list, unchanged |
| IssuesExtractor.NumstatLine | issues_extractor.py:133-135 | `i<TAB>d<TAB>name` gives back the one file it was written from |
| IssuesExtractor.ChunkRecord | issues_extractor.py:129-135 | a chunk with one numstat line and the blank line after it gives its sha and that line's files |
| IssuesExtractor.LastChunkDropsLastLine | issues_extractor.py:129-132 | the last chunk without a trailing newline loses its last numstat line |
| IssuesExtractor.LinesFilesErr | issues_extractor.py:132-135 | once a line raises, the later lines are never looked at |
| IssuesExtractor.LinesStopAt | issues_extractor.py:133 | a line that raises ends its chunk with that error |
| IssuesExtractor.ChunksErr | issues_extractor.py:128-135 | once a chunk raises, the later chunks are never looked at |
| IssuesExtractor.ChunksStopAt | issues_extractor.py:128-135 | a chunk that raises ends the parse with that error |
| IssuesExtractor.ReadChunk | issues_extractor.py:129-135 | the loop over a chunk's lines equals `ChunkEntry` |
| IssuesExtractor.GetCommitsFiles | issues_extractor.py:125-136 | the loop over the chunks equals `CommitsFiles` |

## Left out

- Running RefactoringMiner: the tool path, the subprocess and JSON decoding are not modelled. Only the outcome of a run is a parameter (`MinerRun`).
- The parent class `MASZZ`: its `_blame` and `get_impacted_files` are not part of this model. The base blame is a parameter and the base impacted files are an input.
  - The flags `skip_comments`, `ignore_revs_file_path`, `ignore_whitespaces` and the two move-detection flags are only passed through, so they are not modelled.
- Logging (`log.info`, `log.error`) has no effect on state and is left out.
- Python set and dict iteration order: `set(...)` is iterated in first-occurrence order.
  - The base blame's result set is given as its iteration sequence.
  - `to_reblame` keeps insertion order, as Python dicts do.
- RaSzzSpec.BlameSpec: assumes the base blame returns no repeats and only revisions of a finite universe (`WellFormed`). The model relies on it for termination: it bounds the recursion depth.
- RaSzz.RASZZ.GetImpactedFiles: files are identified as objects, so `set(...)` of the base list removes repeated objects only; `ImpactedFile` equality is not part of this model.
- The Jira client and its retry loop, `JiraIssue.__init__`'s reflective field harvesting, the `Commit` class, `_commits_and_issues` apart from its nested helpers, `get_values`, `_get_commits_files_status`, `extract_json` and the `__main__` block are not part of this model. They are network I/O, file I/O, dates or foreign objects.
- `repo.git.log` is not called; `CommitsFiles` takes the log text as a parameter.
- IssuesExtractor.SubGroups models `re.sub` with the one pattern at issues_extractor.py:97, as a left-to-right scan for `{a => b}` groups. Backslash escapes and group references in the replacement text are not interpreted.
- IssuesExtractor.BraceRename covers the docstring example of issues_extractor.py:84-87 with `pre`, `a`, `b`, `post` equal to `tika-core/src/test/resources/`, `org/apache/tika/fork`, `test-documents` and `/embedded_with_npe.xml`. That literal instance is not stated as a lemma of its own.
- PyStrings.Lower: lower-cases ASCII letters only; Python's `lower()` also maps other Unicode letters.
- PyStrings.IsDigits: accepts ASCII digits only; Python's `isdigit()` and `isnumeric()` also accept other Unicode digits and numerals.
- PyStrings.ParseInt: accepts neither `_` digit separators nor non-ASCII digits, both of which Python's `int()` accepts.
- PyStrings.IsSpace: the whitespace set is Python's `str.isspace` characters, listed explicitly.
- Dictionaries are maps: `_get_commits_files` returns a map, so the key order of the returned dict is not modelled.
- The RefactoringMiner oracle is a function of the commit, so a run is deterministic. In the source, a commit whose run failed (ra_szz.py:41-42) stores nothing and is run again by a later call. The model assumes that later run fails the same way; `Consistent`, `FirstMissing` and the proof that `RaSzz.RASZZ.Blame` equals `BlameSpec` rely on this.
- The report's fields are always present: every refactoring has `type` and `rightSideLocations`, and every location has `filePath`, `startLine` and `endLine`. The source raises `KeyError` when one of them is missing (ra_szz.py:55-58, 102-106), or through `refactoring["type"]` in the log messages (ra_szz.py:63, 109). Those errors are not modelled.
- Of the exceptions `check_output` and `decode` can raise (ra_szz.py:33-34) besides the two caught ones, only undecodable JSON is modelled (`JsonDecodeError`). Others, such as `OSError` when the tool is missing or a decoding error of the output, propagate the same way in the source but are not distinguished.
- RaSzz.RASZZ.Blame: on success, the new cache is stated to hold every commit the base blame returned, at this level and (through `ReblameGroups`) at each reblame let through, and to keep all old entries unchanged. It is not stated as one closed-form function of the old cache along the whole recursion, and the entries added before a failure are not described.
- RaSzz.RASZZ: `minerCalls` is a ghost record of the miner runs, kept only to state that no stored commit is run twice.
