/**
 * The text helpers of the issue extractor: the Jira name helper, commit
 * message cleaning, the bug number tokenizer, `git` rename notation, the
 * committed-file record and the `git log --numstat` parser.
 */
module IssuesExtractor {
  import opened Wrappers
  import opened PyStrings

  /** The Python exceptions these helpers can raise. */
  datatype PyError = IndexError | ValueError

  /** A Jira field value that carries a `name` (a priority, a resolution). */
  datatype JiraValue = JiraValue(name: string)

  /**
   * `JiraIssue.get_name_or_default(val, default)`: the value's name in lower
   * case when there is a value, `default` otherwise (`None` is the only falsy
   * value a Jira field holds here).
   */
  function GetNameOrDefault(val: Option<JiraValue>, default: string): (r: string)
    ensures val.None? ==> r == default
    ensures val.Some? ==> |r| == |val.value.name|
    ensures val.Some? ==> forall k :: 0 <= k < |r| ==> !('A' <= r[k] <= 'Z')
    ensures val.Some? ==> forall k :: 0 <= k < |r| ==> LowerChar(r[k]) == LowerChar(val.value.name[k])
  {
    match val
    case Some(v) => Lower(v.name)
    case None => default
  }

  // ---------------------------------------------------------------------------
  // _clean_commit_message

  const SvnMarker := "git-svn-id"

  /** `_clean_commit_message(m)` */
  function CleanCommitMessage(m: string): string
  {
    if Contains(m, SvnMarker) then Split(m, SvnMarker)[0]
    else Join(Words(m), " ")
  }

  /** A message carrying `git-svn-id` is cut right before its first occurrence. */
  lemma CleanCommitMessageCutsAtMarker(m: string)
    requires Contains(m, SvnMarker)
    ensures var r := CleanCommitMessage(m);
      && |r| < |m| && r == m[..|r|]
      && OccursAt(m, SvnMarker, |r|)
      && !Contains(r, SvnMarker)
  {
    var i := IndexOf(m, SvnMarker).value;
    assert Split(m, SvnMarker)[0] == m[..i];
    SplitPiecesFree(m, SvnMarker);
  }

  /**
   * Any other message is normalised: single spaces between its words, none
   * at either end, and the same words as before.
   */
  lemma CleanCommitMessageNormalises(m: string)
    requires !Contains(m, SvnMarker)
    ensures var r := CleanCommitMessage(m);
      && SingleSpaced(r)
      && (r == [] || (!IsSpace(r[0]) && !IsSpace(r[|r| - 1])))
      && Words(r) == Words(m)
  {
    WordsAreWords(m);
    JoinedWordsSingleSpaced(Words(m));
    WordsOfJoin(Words(m));
  }

  // ---------------------------------------------------------------------------
  // replace(chars_to_replace, replacement, s)

  /** The loop of `replace` after the characters `chars`: one `str.replace` per character, in order. */
  function ReplaceAll(chars: string, repl: string, s: string): string
  {
    if chars == [] then s
    else Replace(ReplaceAll(chars[..|chars| - 1], repl, s), [chars[|chars| - 1]], repl)
  }

  /** The nested `replace` of `_commits_and_issues`. */
  method ReplaceChars(chars: string, repl: string, s: string) returns (r: string)
    ensures r == ReplaceAll(chars, repl, s)
  {
    r := s;
    for i := 0 to |chars|
      invariant r == ReplaceAll(chars[..i], repl, s)
    {
      assert chars[..i + 1][..i] == chars[..i];
      r := Replace(r, [chars[i]], repl);
    }
    assert chars[..|chars|] == chars;
  }

  /** The reference: every character of `s` that is in `cs` becomes `repl`, the others stay. */
  function Subst(s: string, cs: string, repl: string): string
  {
    if s == [] then [] else (if s[0] in cs then repl else [s[0]]) + Subst(s[1..], cs, repl)
  }

  lemma {:induction false} SubstAppend(x: string, y: string, cs: string, repl: string)
    ensures Subst(x + y, cs, repl) == Subst(x, cs, repl) + Subst(y, cs, repl)
    decreases |x|
  {
    if x != [] {
      assert (x + y)[1..] == x[1..] + y;
      SubstAppend(x[1..], y, cs, repl);
    } else {
      assert x + y == y;
    }
  }

  lemma {:induction false} SubstNone(x: string, cs: string, repl: string)
    requires forall k :: 0 <= k < |x| ==> x[k] !in cs
    ensures Subst(x, cs, repl) == x
    decreases |x|
  {
    if x != [] {
      SubstNone(x[1..], cs, repl);
    }
  }

  /** Text before the first `c` has no `c` to substitute. */
  lemma SubstBeforeFirst(s: string, c: char, repl: string, i: nat)
    requires i <= |s| && forall j :: j < i ==> !OccursAt(s, [c], j)
    ensures Subst(s[..i], [c], repl) == s[..i]
  {
    forall k | 0 <= k < i ensures s[..i][k] !in [c] {
      assert !OccursAt(s, [c], k);
      assert s[k..k + 1] == [s[k]];
    }
    SubstNone(s[..i], [c], repl);
  }

  /** Substitution at the first `c` of `s`. */
  lemma SubstAtFirst(s: string, c: char, repl: string, i: nat)
    requires IndexOf(s, [c]) == Some(i)
    ensures Subst(s, [c], repl) == s[..i] + repl + Subst(s[i + 1..], [c], repl)
  {
    var rest := s[i + 1..];
    SubstBeforeFirst(s, c, repl, i);
    assert s[i..i + 1] == [c];
    assert s == s[..i] + ([c] + rest);
    SubstAppend(s[..i], [c] + rest, [c], repl);
    assert ([c] + rest)[1..] == rest;
  }

  /** `s.replace(c, repl)` for one character `c` is the substitution of `c`. */
  lemma {:induction false} ReplaceOneChar(s: string, c: char, repl: string)
    ensures Replace(s, [c], repl) == Subst(s, [c], repl)
    decreases |s|
  {
    match IndexOf(s, [c])
    case None =>
      SubstBeforeFirst(s, c, repl, |s|);
      assert s[..|s|] == s;
    case Some(i) =>
      ReplaceOneChar(s[i + 1..], c, repl);
      SubstAtFirst(s, c, repl, i);
  }

  /** Substituting `cs` and then `c` is substituting `cs + [c]`, when `repl` has none of them. */
  lemma {:induction false} SubstThenOne(s: string, cs: string, c: char, repl: string)
    requires forall k :: 0 <= k < |repl| ==> repl[k] !in cs + [c]
    ensures Subst(Subst(s, cs, repl), [c], repl) == Subst(s, cs + [c], repl)
    decreases |s|
  {
    if s != [] {
      var head := if s[0] in cs then repl else [s[0]];
      SubstThenOne(s[1..], cs, c, repl);
      SubstAppend(head, Subst(s[1..], cs, repl), [c], repl);
      if s[0] in cs {
        SubstNone(repl, [c], repl);
      }
    }
  }

  /**
   * When the replacement holds none of the characters, `replace` substitutes
   * each of them by the replacement and leaves every other character as it was.
   */
  lemma {:induction false} ReplaceAllIsSubst(chars: string, repl: string, s: string)
    requires forall k :: 0 <= k < |repl| ==> repl[k] !in chars
    ensures ReplaceAll(chars, repl, s) == Subst(s, chars, repl)
    decreases |chars|
  {
    if chars == [] {
      SubstNone(s, chars, repl);
    } else {
      var init, c := chars[..|chars| - 1], chars[|chars| - 1];
      assert chars == init + [c];
      ReplaceAllIsSubst(init, repl, s);
      ReplaceOneChar(ReplaceAll(init, repl, s), c, repl);
      SubstThenOne(s, init, c, repl);
    }
  }

  /** ... so none of the characters is left in the result. */
  lemma {:induction false} SubstLeavesNone(s: string, cs: string, repl: string)
    requires forall k :: 0 <= k < |repl| ==> repl[k] !in cs
    ensures forall k :: 0 <= k < |Subst(s, cs, repl)| ==> Subst(s, cs, repl)[k] !in cs
    decreases |s|
  {
    if s != [] {
      SubstLeavesNone(s[1..], cs, repl);
    }
  }

  // ---------------------------------------------------------------------------
  // get_bug_num_from_comit_text

  const Dropped := "[]?#,:(){}'\""
  const Spaced := "-_.="

  /** The commit text as the tokenizer sees it. */
  function BugText(commitText: string): string
  {
    var t := ReplaceAll(Spaced, " ", ReplaceAll(Dropped, "", Lower(commitText)));
    Replace(Replace(t, "bug", ""), "fix", "")
  }

  predicate IsIssueToken(w: string, ids: set<string>)
  {
    IsDigits(w) && w in ids
  }

  /** The first token that is all digits and a known issue id, or `"0"`. */
  function FirstIssue(words: seq<string>, ids: set<string>): (r: string)
    ensures r == "0" || (r in words && IsIssueToken(r, ids))
  {
    if words == [] then "0"
    else if IsIssueToken(words[0], ids) then words[0]
    else FirstIssue(words[1..], ids)
  }

  /** `get_bug_num_from_comit_text(commit_text, issues_ids)` */
  method GetBugNum(commitText: string, ids: set<string>) returns (r: string)
    ensures r == FirstIssue(Words(BugText(commitText)), ids)
  {
    var text := ReplaceChars(Dropped, "", Lower(commitText));
    text := ReplaceChars(Spaced, " ", text);
    text := Replace(Replace(text, "bug", ""), "fix", "");
    var words := Words(text);
    for i := 0 to |words|
      invariant FirstIssue(words[i..], ids) == FirstIssue(words, ids)
    {
      assert words[i..][1..] == words[i + 1..];
      if IsDigits(words[i]) && words[i] in ids {
        return words[i];
      }
    }
    assert words[|words|..] == [];
    return "0";
  }

  /** The bug number is `"0"` when no token is all digits and an issue id ... */
  lemma {:induction false} FirstIssueNone(words: seq<string>, ids: set<string>)
    requires forall k :: 0 <= k < |words| ==> !IsIssueToken(words[k], ids)
    ensures FirstIssue(words, ids) == "0"
    decreases |words|
  {
    if words != [] {
      assert !IsIssueToken(words[0], ids);
      FirstIssueNone(words[1..], ids);
    }
  }

  /** ... and otherwise the first token that is. */
  lemma {:induction false} FirstIssueIsFirst(words: seq<string>, ids: set<string>, k: nat)
    requires k < |words| && IsIssueToken(words[k], ids)
    requires forall j :: 0 <= j < k ==> !IsIssueToken(words[j], ids)
    ensures FirstIssue(words, ids) == words[k]
    decreases k
  {
    if k > 0 {
      assert !IsIssueToken(words[0], ids);
      FirstIssueIsFirst(words[1..], ids, k - 1);
    }
  }

  /** The characters the tokenizer drops or spaces out are gone from the text it splits. */
  lemma BugTextHasNoPunctuation(commitText: string)
    ensures var t := ReplaceAll(Spaced, " ", ReplaceAll(Dropped, "", Lower(commitText)));
      forall k :: 0 <= k < |t| ==> t[k] !in Dropped && t[k] !in Spaced
  {
    var t0 := ReplaceAll(Dropped, "", Lower(commitText));
    ReplaceAllIsSubst(Dropped, "", Lower(commitText));
    SubstLeavesNone(Lower(commitText), Dropped, "");
    ReplaceAllIsSubst(Spaced, " ", t0);
    SubstLeavesNone(t0, Spaced, " ");
    SubstKeepsAbsent(t0, Spaced, " ", Dropped);
  }

  /** Substitution brings in no character that neither `s` nor `repl` had. */
  lemma {:induction false} SubstKeepsAbsent(s: string, cs: string, repl: string, other: string)
    requires forall k :: 0 <= k < |s| ==> s[k] !in other
    requires forall k :: 0 <= k < |repl| ==> repl[k] !in other
    ensures forall k :: 0 <= k < |Subst(s, cs, repl)| ==> Subst(s, cs, repl)[k] !in other
    decreases |s|
  {
    if s != [] {
      SubstKeepsAbsent(s[1..], cs, repl, other);
    }
  }

  // ---------------------------------------------------------------------------
  // fix_renamed_files

  /** The character class `[\.a-zA-Z_/\-0-9]` of the brace-group pattern. */
  predicate InClass(c: char)
  {
    c == '.' || ('a' <= c <= 'z') || ('A' <= c <= 'Z') || c == '_' || c == '/' || c == '-' || ('0' <= c <= '9')
  }

  predicate ClassOnly(s: string)
  {
    forall k :: 0 <= k < |s| ==> InClass(s[k])
  }

  /** Length of the longest prefix of `s` inside the class (what `[...]*` consumes). */
  function ClassRun(s: string): (n: nat)
    ensures n <= |s| && ClassOnly(s[..n])
    ensures n < |s| ==> !InClass(s[n])
  {
    if s == [] || !InClass(s[0]) then 0 else 1 + ClassRun(s[1..])
  }

  /**
   * The length of the match of `{[...]* => [...]*}` at the start of `s`, if
   * any. The class holds neither `' '` nor `'}'`, so the longest runs are the
   * only ones the rest of the pattern can follow: no other match exists.
   */
  function MatchLen(s: string): (r: Option<nat>)
    ensures r.Some? ==> 6 <= r.value <= |s|
  {
    if s == [] || s[0] != '{' then None
    else
      var j := 1 + ClassRun(s[1..]);
      if !(j + 4 <= |s| && s[j..j + 4] == " => ") then None
      else
        var e := j + 4 + ClassRun(s[j + 4..]);
        if e < |s| && s[e] == '}' then Some(e + 1) else None
  }

  /** `g` is a brace group `{a => b}` of the pattern, with sides `a` and `b`. */
  predicate IsGroup(g: string, a: string, b: string)
  {
    g == "{" + a + " => " + b + "}" && ClassOnly(a) && ClassOnly(b)
  }

  lemma {:induction false} ClassRunOf(a: string, t: string)
    requires ClassOnly(a) && (t == [] || !InClass(t[0]))
    ensures ClassRun(a + t) == |a|
    decreases |a|
  {
    if a == [] {
      assert a + t == t;
    } else {
      assert (a + t)[1..] == a[1..] + t;
      ClassRunOf(a[1..], t);
    }
  }

  /** Where the pieces of `{a => b}t` sit. */
  lemma GroupSlices(a: string, b: string, t: string)
    ensures var s := "{" + a + " => " + b + "}" + t;
      && s[0] == '{'
      && s[1..] == a + (" => " + b + "}" + t)
      && s[1 + |a|..5 + |a|] == " => "
      && s[5 + |a|..] == b + ("}" + t)
  {
  }

  /** A brace group at the start of the text is matched whole ... */
  lemma GroupMatches(a: string, b: string, t: string)
    requires ClassOnly(a) && ClassOnly(b)
    ensures MatchLen("{" + a + " => " + b + "}" + t) == Some(|a| + |b| + 6)
  {
    GroupSlices(a, b, t);
    ClassRunOf(a, " => " + b + "}" + t);
    ClassRunOf(b, "}" + t);
  }

  /** ... and every match is a brace group. */
  lemma MatchIsGroup(s: string)
    requires MatchLen(s).Some?
    ensures var e, n := MatchLen(s).value, ClassRun(s[1..]);
      IsGroup(s[..e], s[1..1 + n], s[n + 5..e - 1])
  {
    var e, n := MatchLen(s).value, ClassRun(s[1..]);
    var m := ClassRun(s[n + 5..]);
    assert s[1..][..n] == s[1..1 + n];
    assert s[n + 5..][..m] == s[n + 5..e - 1];
    GroupPieces(s, n, e);
  }

  /** The text up to `e` cut at the ends of the two sides. */
  lemma GroupPieces(s: string, n: nat, e: nat)
    requires n + 6 <= e <= |s|
    requires s[0] == '{' && s[1 + n..n + 5] == " => " && s[e - 1] == '}'
    ensures s[..e] == "{" + s[1..1 + n] + " => " + s[n + 5..e - 1] + "}"
  {
    assert s[..e] == [s[0]] + s[1..1 + n] + s[1 + n..n + 5] + s[n + 5..e - 1] + [s[e - 1]];
  }

  /** `re.sub(pattern, repl, s)`: every match, scanned left to right, becomes `repl`. */
  function SubGroups(s: string, repl: string): string
    decreases |s|
  {
    if s == [] then []
    else
      match MatchLen(s)
      case Some(e) => repl + SubGroups(s[e..], repl)
      case None => [s[0]] + SubGroups(s[1..], repl)
  }

  /** Text without `{` holds no match. */
  lemma {:induction false} SubGroupsPrefix(pre: string, t: string, repl: string)
    requires '{' !in pre
    ensures SubGroups(pre + t, repl) == pre + SubGroups(t, repl)
    decreases |pre|
  {
    if pre == [] {
      assert pre + t == t;
    } else {
      assert (pre + t)[0] == pre[0];
      assert (pre + t)[1..] == pre[1..] + t;
      SubGroupsPrefix(pre[1..], t, repl);
    }
  }

  lemma SubGroupsNone(s: string, repl: string)
    requires '{' !in s
    ensures SubGroups(s, repl) == s
  {
    SubGroupsPrefix(s, [], repl);
    assert s + [] == s;
  }

  /** `map(lambda x: x.strip(), parts)` */
  function StripAll(parts: seq<string>): seq<string>
  {
    seq(|parts|, k requires 0 <= k < |parts| => Strip(parts[k]))
  }

  /** What `fix_renamed_files` contributes for one name. */
  function FixOne(file: string): (r: Result<seq<string>, PyError>)
    ensures r.Ok? ==> |r.value| >= 1
    ensures r.Err? ==> Contains(file, "=>") && Contains(file, "}")
  {
    if !Contains(file, "=>") then Ok([file])
    else if Contains(file, "}") then
      var parts := Split(file, "{");
      if |parts| < 2 then Err(IndexError)
      else
        var sides := Split(Split(parts[1], "}")[0], "=>");
        if |sides| != 2 then Err(ValueError)
        else Ok([SubGroups(file, Strip(sides[0])), SubGroups(file, Strip(sides[1]))])
    else Ok(StripAll(Split(file, "=>")))
  }

  /** `fix_renamed_files(files)`: the names each file contributes, in order; the first error escapes. */
  function FixRenamed(files: seq<string>): (r: Result<seq<string>, PyError>)
    ensures r.Ok? ==> |r.value| >= |files|
  {
    if files == [] then Ok([])
    else
      match FixRenamed(files[..|files| - 1])
      case Err(e) => Err(e)
      case Ok(done) =>
        match FixOne(files[|files| - 1])
        case Err(e) => Err(e)
        case Ok(more) => Ok(done + more)
  }

  method FixRenamedFiles(files: seq<string>) returns (r: Result<seq<string>, PyError>)
    ensures r == FixRenamed(files)
  {
    var newFiles: seq<string> := [];
    for i := 0 to |files|
      invariant FixRenamed(files[..i]) == Ok(newFiles)
    {
      assert files[..i + 1][..i] == files[..i];
      var more := FixOne(files[i]);
      if more.Err? {
        FixRenamedErr(files, i + 1);
        return Err(more.error);
      }
      newFiles := newFiles + more.value;
    }
    assert files[..|files|] == files;
    return Ok(newFiles);
  }

  /** Once a file raises, the files after it are never looked at. */
  lemma {:induction false} FixRenamedErr(files: seq<string>, n: nat)
    requires n <= |files| && FixRenamed(files[..n]).Err?
    ensures FixRenamed(files) == FixRenamed(files[..n])
    decreases |files|
  {
    if n == |files| {
      assert files[..n] == files;
    } else {
      var init := files[..|files| - 1];
      assert init[..n] == files[..n];
      FixRenamedErr(init, n);
    }
  }

  /** Names without `=>` pass through unchanged and in order. */
  lemma {:induction false} FixRenamedPassThrough(files: seq<string>)
    requires forall k :: 0 <= k < |files| ==> !Contains(files[k], "=>")
    ensures FixRenamed(files) == Ok(files)
    decreases |files|
  {
    if files != [] {
      var init, last := files[..|files| - 1], files[|files| - 1];
      FixRenamedPassThrough(init);
      assert FixOne(last) == Ok([last]);
      assert init + [last] == files;
    }
  }

  /** One more file adds its names at the end. */
  lemma FixRenamedSnoc(files: seq<string>, f: string, a: seq<string>, c: seq<string>)
    requires FixRenamed(files) == Ok(a) && FixOne(f) == Ok(c)
    ensures FixRenamed(files + [f]) == Ok(a + c)
  {
    assert (files + [f])[..|files|] == files;
  }

  /** A list that succeeds succeeds on all but its last file, and on that one. */
  lemma FixRenamedInit(files: seq<string>, b: seq<string>)
    requires files != [] && FixRenamed(files) == Ok(b)
    ensures FixRenamed(files[..|files| - 1]).Ok? && FixOne(files[|files| - 1]).Ok?
    ensures b == FixRenamed(files[..|files| - 1]).value + FixOne(files[|files| - 1]).value
  {
  }

  lemma Regroup(xs: seq<string>, init: seq<string>, last: string, a: seq<string>, b0: seq<string>, c: seq<string>)
    requires FixRenamed((xs + init) + [last]) == Ok((a + b0) + c)
    ensures FixRenamed(xs + (init + [last])) == Ok(a + (b0 + c))
  {
    ConcatAssoc(xs, init, [last]);
    ConcatAssoc(a, b0, c);
  }

  /** Each file's names follow those of the files before it. */
  lemma {:induction false} FixRenamedAppend(xs: seq<string>, ys: seq<string>, a: seq<string>, b: seq<string>)
    requires FixRenamed(xs) == Ok(a) && FixRenamed(ys) == Ok(b)
    ensures FixRenamed(xs + ys) == Ok(a + b)
    decreases |ys|
  {
    if ys == [] {
      assert xs + ys == xs;
      assert a + b == a;
    } else {
      var init, last := ys[..|ys| - 1], ys[|ys| - 1];
      FixRenamedInit(ys, b);
      var b0, c := FixRenamed(init).value, FixOne(last).value;
      FixRenamedAppend(xs, init, a, b0);
      FixRenamedSnoc(xs + init, last, a + b0, c);
      Regroup(xs, init, last, a, b0, c);
      assert init + [last] == ys;
    }
  }

  /** The first `=>` of `src + "=>" + dst` is the one between them when `src` has none. */
  lemma ArrowAfter(src: string, dst: string)
    requires !Contains(src, "=>")
    ensures forall j :: j < |src| ==> !OccursAt(src + "=>" + dst, "=>", j)
  {
    var s := src + "=>" + dst;
    forall j | j < |src| ensures !OccursAt(s, "=>", j) {
      if j + 2 <= |src| && OccursAt(s, "=>", j) {
        assert s[j..j + 2] == src[j..j + 2];
        ContainsIff(src, "=>");
        assert OccursAt(src, "=>", j);
      } else if 0 <= j && j + 2 > |src| {
        assert s[j + 1] == '=';
      }
    }
  }

  lemma FullPathSplit(src: string, dst: string)
    requires !Contains(src, "=>") && !Contains(dst, "=>")
    ensures Split(src + "=>" + dst, "=>") == [src, dst]
  {
    ArrowAfter(src, dst);
    SplitAtFirst(src, "=>", dst);
    ContainsIff(dst, "=>");
    SplitAbsent(dst, "=>");
  }

  lemma FullPathBraces(src: string, dst: string)
    requires '}' !in src && '}' !in dst
    ensures Contains(src + "=>" + dst, "=>") && !Contains(src + "=>" + dst, "}")
  {
    var s := src + "=>" + dst;
    ContainsMid(src, "=>", dst);
    assert '}' !in s;
    HeadAbsent(s, "}");
  }

  /** A full path change `src => dst` yields both paths, stripped. */
  lemma FullPathChange(src: string, dst: string)
    requires !Contains(src, "=>") && !Contains(dst, "=>")
    requires '}' !in src && '}' !in dst
    ensures FixOne(src + "=>" + dst) == Ok([Strip(src), Strip(dst)])
  {
    FullPathBraces(src, dst);
    FullPathSplit(src, dst);
    StripPair(src, dst);
  }

  lemma StripPair(a: string, b: string)
    ensures StripAll([a, b]) == [Strip(a), Strip(b)]
  {
  }

  /** The characters of the class are neither delimiters nor whitespace. */
  lemma ClassChars(a: string)
    requires ClassOnly(a)
    ensures '{' !in a && '}' !in a && '=' !in a
    ensures a == [] || (!IsSpace(a[0]) && !IsSpace(a[|a| - 1]))
  {
  }

  lemma CloseHead(x: string, post: string)
    requires '}' !in x
    ensures Split(x + "}" + post, "}")[0] == x
  {
    NoStartInside(x, "}", "}" + post);
    assert x + "}" + post == x + ("}" + post);
    SplitAtFirst(x, "}", post);
  }

  /** The two sides of `a => b`. */
  lemma ArrowSides(a: string, b: string)
    requires ClassOnly(a) && ClassOnly(b)
    ensures Split(a + " => " + b, "=>") == [a + " ", " " + b]
  {
    ClassChars(a);
    ClassChars(b);
    assert a + " => " + b == (a + " ") + "=>" + (" " + b);
    SplitOnce(a + " ", "=>", " " + b);
  }

  /** The sides, once stripped, are the names themselves. */
  lemma StripSides(a: string, b: string)
    requires ClassOnly(a) && ClassOnly(b)
    ensures Strip(a + " ") == a && Strip(" " + b) == b
  {
    ClassChars(a);
    ClassChars(b);
    StripPadded(a, [], " ");
    assert [] + a + " " == a + " ";
    StripPadded(b, " ", []);
    assert " " + b + [] == " " + b;
  }

  /** A match at the start is replaced whole. */
  lemma SubGroupsAtMatch(g: string, t: string, repl: string)
    requires g != [] && MatchLen(g + t) == Some(|g|)
    ensures SubGroups(g + t, repl) == repl + SubGroups(t, repl)
  {
    assert (g + t)[|g|..] == t;
  }

  lemma GroupShape(pre: string, g: string, a: string, b: string, post: string)
    requires g == "{" + a + " => " + b + "}"
    ensures pre + "{" + a + " => " + b + "}" + post == pre + (g + post)
  {
  }

  /** Substituting the one group of `pre{a => b}post` keeps what surrounds it. */
  lemma GroupSub(pre: string, a: string, b: string, post: string, repl: string)
    requires '{' !in pre && '{' !in post
    requires ClassOnly(a) && ClassOnly(b)
    ensures SubGroups(pre + "{" + a + " => " + b + "}" + post, repl) == pre + repl + post
  {
    var g := "{" + a + " => " + b + "}";
    GroupMatches(a, b, post);
    GroupShape(pre, g, a, b, post);
    SubGroupsPrefix(pre, g + post, repl);
    SubGroupsAtMatch(g, post, repl);
    SubGroupsNone(post, repl);
  }

  /** `pre{a => b}post` holds both `=>` and `}` ... */
  lemma BraceContains(pre: string, a: string, b: string, post: string)
    ensures var file := pre + "{" + a + " => " + b + "}" + post;
      Contains(file, "=>") && Contains(file, "}")
  {
    var file := pre + "{" + a + " => " + b + "}" + post;
    assert file == (pre + "{" + a + " ") + "=>" + (" " + b + "}" + post);
    ContainsMid(pre + "{" + a + " ", "=>", " " + b + "}" + post);
    assert file == (pre + "{" + a + " => " + b) + "}" + post;
    ContainsMid(pre + "{" + a + " => " + b, "}", post);
  }

  /** ... and its first `{` is the group's. */
  lemma BraceOpen(pre: string, a: string, b: string, post: string)
    requires '{' !in pre && '{' !in post
    requires ClassOnly(a) && ClassOnly(b)
    ensures Split(pre + "{" + a + " => " + b + "}" + post, "{") == [pre, a + " => " + b + "}" + post]
  {
    var rest := a + " => " + b + "}" + post;
    ClassChars(a);
    ClassChars(b);
    assert pre + "{" + a + " => " + b + "}" + post == pre + "{" + rest;
    assert '{' !in rest;
    SplitOnce(pre, "{", rest);
  }

  /**
   * A moved file `pre{a => b}post` yields the path through `a` and then the
   * path through `b`.
   */
  lemma BraceRename(pre: string, a: string, b: string, post: string)
    requires '{' !in pre && '{' !in post
    requires ClassOnly(a) && ClassOnly(b)
    ensures FixOne(pre + "{" + a + " => " + b + "}" + post) == Ok([pre + a + post, pre + b + post])
  {
    BraceContains(pre, a, b, post);
    BraceOpen(pre, a, b, post);
    ClassChars(a);
    ClassChars(b);
    CloseHead(a + " => " + b, post);
    ArrowSides(a, b);
    StripSides(a, b);
    GroupSub(pre, a, b, post, a);
    GroupSub(pre, a, b, post, b);
  }

  // ---------------------------------------------------------------------------
  // CommittedFile

  /** One file of one commit, with its line counts from `git log --numstat`. */
  datatype CommittedFile = CommittedFile(sha: string, name: string, insertions: int, deletions: int,
                                         isJava: bool, isTest: bool)

  /** The two flags are read off the name. */
  predicate Flagged(f: CommittedFile)
  {
    f.isJava == EndsWith(f.name, ".java") && f.isTest == Contains(f.name, "test")
  }

  /**
   * `CommittedFile(sha, name, insertions, deletions)`: the name goes through
   * `fix_renamed_files` (its first name is kept); the counts are read only
   * when `insertions` is numeric, and both are 0 otherwise (`-` for a
   * binary file).
   */
  function NewCommittedFile(sha: string, name: string, insertions: string, deletions: string)
    : (r: Result<CommittedFile, PyError>)
    ensures r.Ok? ==> r.value.sha == sha && Flagged(r.value)
    ensures r.Ok? ==> FixRenamed([name]).Ok? && r.value.name == FixRenamed([name]).value[0]
    ensures FixRenamed([name]).Ok? && !IsDigits(insertions) ==>
      r.Ok? && r.value.insertions == 0 && r.value.deletions == 0
    ensures r.Ok? && IsDigits(insertions) ==>
      r.value.insertions == DigitsValue(insertions) && ParseInt(deletions) == Some(r.value.deletions)
    ensures r.Err? ==> FixRenamed([name]).Err? || (IsDigits(insertions) && ParseInt(deletions).None?)
  {
    match FixRenamed([name])
    case Err(e) => Err(e)
    case Ok(names) =>
      var n := names[0];
      var flagged := CommittedFile(sha, n, 0, 0, EndsWith(n, ".java"), Contains(n, "test"));
      if IsDigits(insertions) then
        match ParseInt(deletions)
        case None => Err(ValueError)
        case Some(d) => Ok(flagged.(insertions := DigitsValue(insertions), deletions := d))
      else Ok(flagged)
  }

  /** A numstat record `i`, `d`, `name` gives back the counts it was written from. */
  lemma NewCommittedFileCounts(sha: string, name: string, i: nat, d: nat)
    requires !Contains(name, "=>")
    ensures NewCommittedFile(sha, name, DecimalString(i), DecimalString(d))
      == Ok(CommittedFile(sha, name, i, d, EndsWith(name, ".java"), Contains(name, "test")))
  {
    FixRenamedPassThrough([name]);
    DecimalRoundTrip(i);
    ParseIntDecimal(d);
  }

  /**
   * Insertions that are not numeric (`-` for a binary file) give no counted
   * lines, whatever the deletions hold.
   */
  lemma NewCommittedFileNonNumeric(sha: string, name: string, insertions: string, deletions: string)
    requires !Contains(name, "=>") && !IsDigits(insertions)
    ensures NewCommittedFile(sha, name, insertions, deletions)
      == Ok(CommittedFile(sha, name, 0, 0, EndsWith(name, ".java"), Contains(name, "test")))
  {
    FixRenamedPassThrough([name]);
  }

  /** Numeric insertions with deletions `int()` refuses raise `ValueError`. */
  lemma NewCommittedFileBadDeletions(sha: string, name: string, insertions: string, deletions: string)
    requires FixRenamed([name]).Ok? && IsDigits(insertions) && ParseInt(deletions).None?
    ensures NewCommittedFile(sha, name, insertions, deletions) == Err(ValueError)
  {
  }

  // ---------------------------------------------------------------------------
  // _get_commits_files

  /** `list(map(lambda n: CommittedFile(sha, n, insertions, deletions), names))`; the first error escapes. */
  function CommittedFiles(sha: string, names: seq<string>, insertions: string, deletions: string)
    : (r: Result<seq<CommittedFile>, PyError>)
    ensures r.Ok? ==> |r.value| == |names|
    ensures r.Ok? ==> forall k :: 0 <= k < |r.value| ==> r.value[k].sha == sha && Flagged(r.value[k])
  {
    if names == [] then Ok([])
    else
      match CommittedFiles(sha, names[..|names| - 1], insertions, deletions)
      case Err(e) => Err(e)
      case Ok(done) =>
        match NewCommittedFile(sha, names[|names| - 1], insertions, deletions)
        case Err(e) => Err(e)
        case Ok(f) => Ok(done + [f])
  }

  /** One numstat line `insertions<TAB>deletions<TAB>name`: exactly three fields, or `ValueError`. */
  function LineFiles(sha: string, x: string): (r: Result<seq<CommittedFile>, PyError>)
    ensures r.Ok? ==> forall k :: 0 <= k < |r.value| ==> r.value[k].sha == sha && Flagged(r.value[k])
  {
    var fields := Split(x, "\t");
    if |fields| != 3 then Err(ValueError)
    else
      match FixRenamed([fields[2]])
      case Err(e) => Err(e)
      case Ok(names) => CommittedFiles(sha, names, fields[0], fields[1])
  }

  /** The files of the numstat lines `xs`, in order; the first error escapes. */
  function LinesFiles(sha: string, xs: seq<string>): (r: Result<seq<CommittedFile>, PyError>)
    ensures r.Ok? ==> forall k :: 0 <= k < |r.value| ==> r.value[k].sha == sha && Flagged(r.value[k])
  {
    if xs == [] then Ok([])
    else
      match LinesFiles(sha, xs[..|xs| - 1])
      case Err(e) => Err(e)
      case Ok(done) =>
        match LineFiles(sha, xs[|xs| - 1])
        case Err(e) => Err(e)
        case Ok(more) => Ok(done + more)
  }

  /** A chunk of the log after `sha: `, quotes dropped and blank lines folded, split into lines. */
  function ChunkLines(d: string): (lines: seq<string>)
    ensures |lines| >= 1
  {
    Split(Replace(Replace(d, "\"", ""), "\n\n", "\n"), "\n")
  }

  /** The lines strictly between the first and the last (`d[1:-1]`). */
  function Inner(lines: seq<string>): seq<string>
  {
    if |lines| < 2 then [] else lines[1..|lines| - 1]
  }

  /** A chunk's sha (its first line) and the files of its inner lines. */
  function ChunkEntry(d: string): (r: Result<(string, seq<CommittedFile>), PyError>)
    ensures r.Ok? ==> forall k :: 0 <= k < |r.value.1| ==> r.value.1[k].sha == r.value.0
  {
    var lines := ChunkLines(d);
    match LinesFiles(lines[0], Inner(lines))
    case Err(e) => Err(e)
    case Ok(files) => Ok((lines[0], files))
  }

  /** Every file listed under a sha belongs to that sha. */
  predicate Filed(comms: map<string, seq<CommittedFile>>)
  {
    forall sha :: sha in comms ==> forall k :: 0 <= k < |comms[sha]| ==> comms[sha][k].sha == sha
  }

  /** The dictionary after the chunks `ds`: a later chunk with the same sha replaces the earlier one. */
  function Chunks(ds: seq<string>): (r: Result<map<string, seq<CommittedFile>>, PyError>)
    ensures r.Ok? ==> Filed(r.value)
  {
    if ds == [] then Ok(map[])
    else
      match Chunks(ds[..|ds| - 1])
      case Err(e) => Err(e)
      case Ok(comms) =>
        match ChunkEntry(ds[|ds| - 1])
        case Err(e) => Err(e)
        case Ok(entry) => Ok(comms[entry.0 := entry.1])
  }

  /** `_get_commits_files` on the text of `git log --numstat --pretty=format:"sha: %H"`: the shas with at least one file. */
  function CommitsFiles(log: string): (r: Result<map<string, seq<CommittedFile>>, PyError>)
    ensures r.Ok? ==> Filed(r.value)
    ensures r.Ok? ==> forall sha :: sha in r.value ==> r.value[sha] != []
  {
    match Chunks(Split(log, "sha: ")[1..])
    case Err(e) => Err(e)
    case Ok(comms) => Ok(NonEmpty(comms))
  }

  /** The entries whose list is not empty. */
  function NonEmpty(comms: map<string, seq<CommittedFile>>): (r: map<string, seq<CommittedFile>>)
    ensures forall sha :: sha in r <==> sha in comms && comms[sha] != []
    ensures forall sha :: sha in r ==> r[sha] == comms[sha]
  {
    map sha | sha in comms && comms[sha] != [] :: comms[sha]
  }

  /** Three fields around two separators split back into the three fields. */
  lemma SplitThree(x: string, a: string, b: string, c: string, sep: string)
    requires |sep| > 0 && sep[0] !in a && sep[0] !in b && sep[0] !in c
    requires x == a + sep + b + sep + c
    ensures Split(x, sep) == [a, b, c]
  {
    NoStartInside(a, sep, sep + b + sep + c);
    assert x == a + sep + (b + sep + c);
    SplitAtFirst(a, sep, b + sep + c);
    SplitOnce(b, sep, c);
  }

  /** A single name yields a single file. */
  lemma OneCommittedFile(sha: string, name: string, insertions: string, deletions: string, f: CommittedFile)
    requires NewCommittedFile(sha, name, insertions, deletions) == Ok(f)
    ensures CommittedFiles(sha, [name], insertions, deletions) == Ok([f])
  {
    assert [name][..0] == [];
    assert [] + [f] == [f];
  }

  lemma DigitsHaveNoTab(s: string)
    requires IsDigits(s)
    ensures '\t' !in s
  {
    assert forall k :: 0 <= k < |s| ==> IsDigitChar(s[k]);
  }

  /** A numstat line gives back the one file it was written from. */
  lemma NumstatLine(sha: string, i: nat, d: nat, name: string)
    requires '\t' !in name && !Contains(name, "=>")
    ensures LineFiles(sha, DecimalString(i) + "\t" + DecimalString(d) + "\t" + name)
      == Ok([CommittedFile(sha, name, i, d, EndsWith(name, ".java"), Contains(name, "test"))])
  {
    var ins, del, tab := DecimalString(i), DecimalString(d), "\t";
    DigitsHaveNoTab(ins);
    DigitsHaveNoTab(del);
    SplitThree(ins + tab + del + tab + name, ins, del, name, tab);
    FixRenamedPassThrough([name]);
    NewCommittedFileCounts(sha, name, i, d);
    OneCommittedFile(sha, name, ins, del, CommittedFile(sha, name, i, d, EndsWith(name, ".java"), Contains(name, "test")));
  }

  /** Dropping the quote that ends a text. */
  lemma QuoteAtEnd(x: string, q: string)
    requires |q| == 1 && q[0] !in x
    ensures Replace(x + q, q, "") == x
  {
    assert x + q == x + q + [];
    ReplaceAfter(x, q, [], "");
  }

  /** The two quotes of `h"x"` are dropped. */
  lemma QuotesDropped(h: string, x: string, q: string)
    requires |q| == 1 && q[0] !in h && q[0] !in x
    ensures Replace(h + q + (x + q), q, "") == h + x
  {
    ReplaceAfter(h, q, x + q, "");
    QuoteAtEnd(x, q);
  }

  /** The one quote of `h"x` is dropped. */
  lemma QuoteDropped(h: string, x: string, q: string)
    requires |q| == 1 && q[0] !in h && q[0] !in x
    ensures Replace(h + q + x, q, "") == h + x
  {
    ReplaceAfter(h, q, x, "");
    ReplaceAbsent(x, q, "");
  }

  /** With a single line break in `h\nx`, no blank line starts inside it. */
  lemma NoBlank(h: string, x: string, nl: string, rest: string)
    requires nl == "\n" && '\n' !in h && '\n' !in x && (x != [] || rest == [])
    ensures forall j :: j < |h + nl + x| ==> !OccursAt(h + nl + x + rest, nl + nl, j)
  {
    var s := h + nl + x + rest;
    forall j | j < |h + nl + x| ensures !OccursAt(s, nl + nl, j) {
      if 0 <= j && j + 2 <= |s| {
        if j < |h| {
          assert s[j] == h[j];
        } else if j > |h| {
          assert s[j] == x[j - |h| - 1];
        } else {
          assert s[j + 1] == x[0];
        }
        assert s[j..j + 2][0] == s[j] && s[j..j + 2][1] == s[j + 1];
      }
    }
  }

  /** In `h\nx\n\n` the blank line is folded away. */
  lemma BlankFolded(h: string, x: string, nl: string)
    requires nl == "\n" && '\n' !in h && '\n' !in x && x != []
    ensures Replace(h + nl + x + (nl + nl), nl + nl, nl) == h + nl + x + nl
  {
    NoBlank(h, x, nl, nl + nl);
    ReplaceLast(h + nl + x, nl + nl, nl);
  }

  /** Text with a single line break is left alone. */
  lemma NoBlankLeft(h: string, x: string, nl: string)
    requires nl == "\n" && '\n' !in h && '\n' !in x
    ensures Replace(h + nl + x, nl + nl, nl) == h + nl + x
  {
    NoBlank(h, x, nl, []);
    assert h + nl + x + [] == h + nl + x;
    assert IndexOf(h + nl + x, nl + nl).None?;
  }

  /** `h\nx\n` splits into `h`, `x` and an empty last line. */
  lemma RecordLines(h: string, x: string, nl: string)
    requires nl == "\n" && '\n' !in h && '\n' !in x
    ensures Split(h + nl + x + nl, nl) == [h, x, ""]
  {
    assert h + nl + x + nl + "" == h + nl + x + nl;
    SplitThree(h + nl + x + nl, h, x, "", nl);
  }

  lemma ChunkShape(h: string, line: string)
    ensures h + "\"\n" + line + "\n\n\"" == h + "\"" + (("\n" + line + ("\n" + "\n")) + "\"")
  {
  }

  lemma RecordShape(h: string, line: string, nl: string)
    ensures h + (nl + line + (nl + nl)) == h + nl + line + (nl + nl)
  {
  }

  /** A commit's chunk with one numstat line and the blank line after it. */
  lemma ChunkRecordLines(h: string, line: string)
    requires '"' !in h && '\n' !in h && '"' !in line && '\n' !in line && line != []
    ensures ChunkLines(h + "\"\n" + line + "\n\n\"") == [h, line, ""]
  {
    var q, nl := "\"", "\n";
    assert nl + nl == "\n\n";
    ChunkShape(h, line);
    QuotesDropped(h, nl + line + (nl + nl), q);
    RecordShape(h, line, nl);
    BlankFolded(h, line, nl);
    RecordLines(h, line, nl);
  }

  lemma ChunkRecord(h: string, line: string, files: seq<CommittedFile>)
    requires '"' !in h && '\n' !in h && '"' !in line && '\n' !in line && line != []
    requires LineFiles(h, line) == Ok(files)
    ensures ChunkEntry(h + "\"\n" + line + "\n\n\"") == Ok((h, files))
  {
    ChunkRecordLines(h, line);
    assert Inner([h, line, ""]) == [line];
    assert LinesFiles(h, [line]) == Ok(files) by {
      assert [line][..0] == [];
      assert [] + files == files;
    }
  }

  lemma LastShape(h: string, line: string)
    ensures h + "\"\n" + line == h + "\"" + ("\n" + line)
  {
  }

  lemma LastChunkLines(h: string, line: string)
    requires '"' !in h && '\n' !in h && '"' !in line && '\n' !in line
    ensures ChunkLines(h + "\"\n" + line) == [h, line]
  {
    var q, nl := "\"", "\n";
    assert nl + nl == "\n\n";
    LastShape(h, line);
    QuoteDropped(h, nl + line, q);
    ConcatAssoc(h, nl, line);
    NoBlankLeft(h, line, nl);
    SplitOnce(h, nl, line);
  }

  lemma LastChunkDropsLastLine(h: string, line: string)
    requires '"' !in h && '\n' !in h && '"' !in line && '\n' !in line
    ensures ChunkEntry(h + "\"\n" + line) == Ok((h, []))
  {
    LastChunkLines(h, line);
    assert Inner([h, line]) == [];
  }

  lemma {:induction false} LinesFilesErr(sha: string, xs: seq<string>, n: nat)
    requires n <= |xs| && LinesFiles(sha, xs[..n]).Err?
    ensures LinesFiles(sha, xs) == LinesFiles(sha, xs[..n])
    decreases |xs|
  {
    if n == |xs| {
      assert xs[..n] == xs;
    } else {
      var init := xs[..|xs| - 1];
      assert init[..n] == xs[..n];
      LinesFilesErr(sha, init, n);
    }
  }

  lemma {:induction false} ChunksErr(ds: seq<string>, n: nat)
    requires n <= |ds| && Chunks(ds[..n]).Err?
    ensures Chunks(ds) == Chunks(ds[..n])
    decreases |ds|
  {
    if n == |ds| {
      assert ds[..n] == ds;
    } else {
      var init := ds[..|ds| - 1];
      assert init[..n] == ds[..n];
      ChunksErr(init, n);
    }
  }

  lemma LinesStep(sha: string, xs: seq<string>, j: nat, files: seq<CommittedFile>)
    requires j < |xs| && LinesFiles(sha, xs[..j]) == Ok(files) && LineFiles(sha, xs[j]).Ok?
    ensures LinesFiles(sha, xs[..j + 1]) == Ok(files + LineFiles(sha, xs[j]).value)
  {
    assert xs[..j + 1][..j] == xs[..j];
  }

  /** A numstat line that raises ends the chunk with its error. */
  lemma LinesStopAt(sha: string, xs: seq<string>, j: nat)
    requires j < |xs| && LinesFiles(sha, xs[..j]).Ok? && LineFiles(sha, xs[j]).Err?
    ensures LinesFiles(sha, xs) == Err(LineFiles(sha, xs[j]).error)
  {
    assert xs[..j + 1][..j] == xs[..j];
    LinesFilesErr(sha, xs, j + 1);
  }

  lemma ChunksStep(ds: seq<string>, i: nat, comms: map<string, seq<CommittedFile>>)
    requires i < |ds| && Chunks(ds[..i]) == Ok(comms) && ChunkEntry(ds[i]).Ok?
    ensures Chunks(ds[..i + 1]) == Ok(comms[ChunkEntry(ds[i]).value.0 := ChunkEntry(ds[i]).value.1])
  {
    assert ds[..i + 1][..i] == ds[..i];
  }

  /** A chunk that raises ends the whole parse with its error. */
  lemma ChunksStopAt(ds: seq<string>, i: nat)
    requires i < |ds| && Chunks(ds[..i]).Ok? && ChunkEntry(ds[i]).Err?
    ensures Chunks(ds) == Err(ChunkEntry(ds[i]).error)
  {
    assert ds[..i + 1][..i] == ds[..i];
    ChunksErr(ds, i + 1);
  }

  /** The loop over one chunk's lines. */
  method ReadChunk(d: string) returns (r: Result<(string, seq<CommittedFile>), PyError>)
    ensures r == ChunkEntry(d)
  {
    var lines := ChunkLines(d);
    var sha := lines[0];
    var xs := Inner(lines);
    var files: seq<CommittedFile> := [];
    for j := 0 to |xs|
      invariant LinesFiles(sha, xs[..j]) == Ok(files)
    {
      var fields := Split(xs[j], "\t");
      if |fields| != 3 {
        LinesStopAt(sha, xs, j);
        return Err(ValueError);
      }
      var names := FixRenamedFiles([fields[2]]);
      var more := if names.Err? then Err(names.error) else CommittedFiles(sha, names.value, fields[0], fields[1]);
      assert more == LineFiles(sha, xs[j]);
      if more.Err? {
        LinesStopAt(sha, xs, j);
        return Err(more.error);
      }
      LinesStep(sha, xs, j, files);
      files := files + more.value;
    }
    assert xs[..|xs|] == xs;
    return Ok((sha, files));
  }

  /** `_get_commits_files`: the loop over the chunks of the log. */
  method GetCommitsFiles(log: string) returns (r: Result<map<string, seq<CommittedFile>>, PyError>)
    ensures r == CommitsFiles(log)
  {
    var data := Split(log, "sha: ");
    var ds := data[1..];
    var comms: map<string, seq<CommittedFile>> := map[];
    for i := 0 to |ds|
      invariant Chunks(ds[..i]) == Ok(comms)
    {
      var entry := ReadChunk(ds[i]);
      if entry.Err? {
        ChunksStopAt(ds, i);
        return Err(entry.error);
      }
      ChunksStep(ds, i, comms);
      comms := comms[entry.value.0 := entry.value.1];
    }
    assert ds[..|ds|] == ds;
    return Ok(NonEmpty(comms));
  }
}
