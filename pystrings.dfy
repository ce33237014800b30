/**
 * The Python `str` operations the extractor and the refactoring filter rely on,
 * over `string` (a sequence of code points):
 * `sub in s`, `s.split(sep)`, `sep.join(parts)`, `s.replace(old, new)`,
 * `s.split()`, `s.strip()`, `s.lower()`, `s.endswith(suffix)`,
 * `s.isdigit()` / `s.isnumeric()` and `int(s)`.
 */
module PyStrings {
  import opened Wrappers

  /** Python's `str.isspace` for one character (the set `split()` and `strip()` use). */
  predicate IsSpace(c: char)
  {
    c == ' ' || c == '\t' || c == '\n' || c == '\r' || c == '\U{0B}' || c == '\U{0C}'
    || ('\U{1C}' <= c <= '\U{1F}') || c == '\U{85}' || c == '\U{A0}' || c == '\U{1680}'
    || ('\U{2000}' <= c <= '\U{200A}') || c == '\U{2028}' || c == '\U{2029}'
    || c == '\U{202F}' || c == '\U{205F}' || c == '\U{3000}'
  }

  predicate AllSpace(s: string)
  {
    forall k :: 0 <= k < |s| ==> IsSpace(s[k])
  }

  /** `sub` occurs in `s` starting at index `j`. */
  predicate OccursAt(s: string, sub: string, j: int)
  {
    0 <= j && j + |sub| <= |s| && s[j..j + |sub|] == sub
  }

  function IndexFrom(s: string, sub: string, k: nat): (r: Option<nat>)
    requires k <= |s|
    ensures r.Some? ==> k <= r.value && OccursAt(s, sub, r.value)
    ensures r.Some? ==> forall j :: k <= j < r.value ==> !OccursAt(s, sub, j)
    ensures r.None? ==> forall j :: k <= j ==> !OccursAt(s, sub, j)
    decreases |s| - k
  {
    if OccursAt(s, sub, k) then Some(k)
    else if k == |s| then None
    else IndexFrom(s, sub, k + 1)
  }

  /** `s.find(sub)`: the first index where `sub` occurs, if any. */
  function IndexOf(s: string, sub: string): (r: Option<nat>)
    ensures r.Some? ==> OccursAt(s, sub, r.value) && forall j :: j < r.value ==> !OccursAt(s, sub, j)
    ensures r.None? ==> forall j :: !OccursAt(s, sub, j)
  {
    IndexFrom(s, sub, 0)
  }

  /** Python's `sub in s`. */
  predicate Contains(s: string, sub: string)
  {
    IndexOf(s, sub).Some?
  }

  lemma ContainsIff(s: string, sub: string)
    ensures Contains(s, sub) <==> exists j: nat :: OccursAt(s, sub, j)
  {
  }

  /** `s.split(sep)` for a non-empty separator. */
  function Split(s: string, sep: string): (parts: seq<string>)
    requires |sep| > 0
    ensures |parts| >= 1
    decreases |s|
  {
    match IndexOf(s, sep)
    case None => [s]
    case Some(i) => [s[..i]] + Split(s[i + |sep|..], sep)
  }

  /** `sep.join(parts)`. */
  function Join(parts: seq<string>, sep: string): string
  {
    if |parts| == 0 then ""
    else if |parts| == 1 then parts[0]
    else parts[0] + sep + Join(parts[1..], sep)
  }

  /** Splitting and joining with the same separator gives the text back. */
  lemma {:induction false} JoinSplit(s: string, sep: string)
    requires |sep| > 0
    ensures Join(Split(s, sep), sep) == s
    decreases |s|
  {
    match IndexOf(s, sep)
    case None =>
    case Some(i) =>
      var rest := s[i + |sep|..];
      var pieces := Split(rest, sep);
      JoinSplit(rest, sep);
      assert Split(s, sep) == [s[..i]] + pieces;
      assert Join([s[..i]] + pieces, sep) == s[..i] + sep + Join(pieces, sep) by {
        assert ([s[..i]] + pieces)[1..] == pieces;
      }
      assert s == s[..i] + sep + rest;
  }

  /** No piece returned by `split` contains the separator. */
  lemma {:induction false} SplitPiecesFree(s: string, sep: string)
    requires |sep| > 0
    ensures forall k :: 0 <= k < |Split(s, sep)| ==> !Contains(Split(s, sep)[k], sep)
    decreases |s|
  {
    match IndexOf(s, sep)
    case None =>
    case Some(i) =>
      var rest := s[i + |sep|..];
      SplitPiecesFree(rest, sep);
      var head := s[..i];
      if Contains(head, sep) {
        OccursInPrefix(s, i, sep, IndexOf(head, sep).value);
      }
  }

  /** When the separator first occurs right after `x`, `split` cuts there. */
  lemma SplitAtFirst(x: string, sep: string, y: string)
    requires |sep| > 0
    requires forall j :: j < |x| ==> !OccursAt(x + sep + y, sep, j)
    ensures Split(x + sep + y, sep) == [x] + Split(y, sep)
  {
    var s := x + sep + y;
    assert OccursAt(s, sep, |x|);
    assert IndexOf(s, sep) == Some(|x|);
    assert s[..|x|] == x;
    assert s[|x| + |sep|..] == y;
  }

  /** A text where the separator never occurs splits into itself alone. */
  lemma SplitAbsent(s: string, sep: string)
    requires |sep| > 0
    requires forall j :: !OccursAt(s, sep, j)
    ensures Split(s, sep) == [s]
  {
  }

  /** If the separator's first character is not in `x`, the separator cannot start inside `x`. */
  lemma NoStartInside(x: string, sep: string, y: string)
    requires |sep| > 0 && sep[0] !in x
    ensures forall j :: j < |x| ==> !OccursAt(x + y, sep, j)
  {
  }

  lemma OccursInPrefix(s: string, n: nat, sub: string, j: int)
    requires n <= |s| && OccursAt(s[..n], sub, j)
    ensures OccursAt(s, sub, j)
  {
    assert s[..n][j..j + |sub|] == s[j..j + |sub|];
  }

  lemma ConcatAssoc<T>(a: seq<T>, b: seq<T>, c: seq<T>)
    ensures (a + b) + c == a + (b + c)
  {
  }

  /** A text without the separator's first character neither contains it nor splits. */
  lemma HeadAbsent(s: string, sep: string)
    requires |sep| > 0 && sep[0] !in s
    ensures !Contains(s, sep) && Split(s, sep) == [s]
  {
    NoStartInside(s, sep, []);
    assert s + [] == s;
    SplitAbsent(s, sep);
  }

  /** A separator whose first character occurs nowhere else splits the text in two. */
  lemma SplitOnce(x: string, sep: string, y: string)
    requires |sep| > 0 && sep[0] !in x && sep[0] !in y
    ensures Split(x + sep + y, sep) == [x, y]
  {
    NoStartInside(x, sep, sep + y);
    assert x + sep + y == x + (sep + y);
    SplitAtFirst(x, sep, y);
    HeadAbsent(y, sep);
  }

  /** A text with `sub` spelled out in it contains `sub`. */
  lemma ContainsMid(x: string, sub: string, y: string)
    ensures Contains(x + sub + y, sub)
  {
    var s := x + sub + y;
    assert s[|x|..|x| + |sub|] == sub;
    assert OccursAt(s, sub, |x|);
  }

  /** `s.replace(old, new)`: every non-overlapping occurrence, scanned left to right. */
  function Replace(s: string, pat: string, repl: string): string
    requires |pat| > 0
    decreases |s|
  {
    match IndexOf(s, pat)
    case None => s
    case Some(i) => s[..i] + repl + Replace(s[i + |pat|..], pat, repl)
  }

  /** Python's identity `s.replace(old, new) == new.join(s.split(old))`. */
  lemma {:induction false} ReplaceIsSplitJoin(s: string, pat: string, repl: string)
    requires |pat| > 0
    ensures Replace(s, pat, repl) == Join(Split(s, pat), repl)
    decreases |s|
  {
    match IndexOf(s, pat)
    case None =>
    case Some(i) =>
      ReplaceIsSplitJoin(s[i + |pat|..], pat, repl);
      JoinSplitStep(s, pat, repl, i);
  }

  /** Joining the pieces of `s` is joining the pieces after the first separator, behind the first piece. */
  lemma JoinSplitStep(s: string, pat: string, repl: string, i: nat)
    requires |pat| > 0 && IndexOf(s, pat) == Some(i)
    ensures Join(Split(s, pat), repl) == s[..i] + repl + Join(Split(s[i + |pat|..], pat), repl)
  {
    var pieces := Split(s[i + |pat|..], pat);
    assert Split(s, pat) == [s[..i]] + pieces;
    assert ([s[..i]] + pieces)[1..] == pieces;
  }

  /** Length of the leading run of non-whitespace characters. */
  function WordLen(s: string): (n: nat)
    ensures n <= |s|
    ensures forall k :: 0 <= k < n ==> !IsSpace(s[k])
    ensures n < |s| ==> IsSpace(s[n])
  {
    if s == [] || IsSpace(s[0]) then 0 else 1 + WordLen(s[1..])
  }

  /** `s.split()` with no argument: the maximal runs of non-whitespace characters. */
  function Words(s: string): seq<string>
    decreases |s|
  {
    if s == [] then []
    else if IsSpace(s[0]) then Words(s[1..])
    else
      var n := WordLen(s);
      [s[..n]] + Words(s[n..])
  }

  predicate IsWord(w: string)
  {
    |w| > 0 && forall k :: 0 <= k < |w| ==> !IsSpace(w[k])
  }

  predicate AllWords(ws: seq<string>)
  {
    forall k :: 0 <= k < |ws| ==> IsWord(ws[k])
  }

  /** Every piece of `split()` is non-empty and free of whitespace. */
  lemma {:induction false} WordsAreWords(s: string)
    ensures AllWords(Words(s))
    decreases |s|
  {
    if s == [] {
    } else if IsSpace(s[0]) {
      WordsAreWords(s[1..]);
    } else {
      var n := WordLen(s);
      WordsAreWords(s[n..]);
    }
  }

  lemma {:induction false} WordLenOfWord(w: string, t: string)
    requires IsWord(w)
    requires t == [] || IsSpace(t[0])
    ensures WordLen(w + t) == |w|
    decreases |w|
  {
    if |w| > 1 {
      assert (w + t)[1..] == w[1..] + t;
      WordLenOfWord(w[1..], t);
    } else {
      assert (w + t)[1..] == t;
    }
  }

  /** `split()` undoes `' '.join(...)` of whitespace-free, non-empty words. */
  lemma {:induction false} WordsOfJoin(ws: seq<string>)
    requires AllWords(ws)
    ensures Words(Join(ws, " ")) == ws
    decreases |ws|
  {
    if |ws| == 0 {
    } else if |ws| == 1 {
      var w := ws[0];
      WordLenOfWord(w, "");
      assert w + "" == w;
      assert w[|w|..] == [];
    } else {
      var w, j := ws[0], Join(ws[1..], " ");
      var s := w + " " + j;
      assert s == w + (" " + j);
      WordLenOfWord(w, " " + j);
      assert s[..|w|] == w;
      assert s[|w|..] == " " + j;
      assert (" " + j)[1..] == j;
      WordsOfJoin(ws[1..]);
      assert ws == [w] + ws[1..];
    }
  }

  /** Whitespace in `s` appears only as single `' '` characters between non-whitespace. */
  predicate SingleSpaced(s: string)
  {
    forall k :: 0 <= k < |s| && IsSpace(s[k]) ==>
      s[k] == ' ' && 0 < k < |s| - 1 && !IsSpace(s[k - 1]) && !IsSpace(s[k + 1])
  }

  lemma {:induction false} JoinedWordsSingleSpaced(ws: seq<string>)
    requires AllWords(ws)
    ensures SingleSpaced(Join(ws, " "))
    ensures ws != [] ==> |Join(ws, " ")| > 0 && !IsSpace(Join(ws, " ")[0])
                          && !IsSpace(Join(ws, " ")[|Join(ws, " ")| - 1])
    decreases |ws|
  {
    if |ws| > 1 {
      var w, j := ws[0], Join(ws[1..], " ");
      JoinedWordsSingleSpaced(ws[1..]);
      var s := w + " " + j;
      assert Join(ws, " ") == s;
      forall k | 0 <= k < |s| && IsSpace(s[k])
        ensures s[k] == ' ' && 0 < k < |s| - 1 && !IsSpace(s[k - 1]) && !IsSpace(s[k + 1])
      {
        if k < |w| {
          assert false;
        } else if k == |w| {
          assert s[k + 1] == j[0];
          assert s[k - 1] == w[|w| - 1];
        } else {
          assert s[k] == j[k - |w| - 1];
          assert k - |w| - 1 < |j| - 1;
          assert s[k + 1] == j[k - |w|];
          assert k - 1 == |w| || s[k - 1] == j[k - |w| - 2];
        }
      }
    }
  }

  /** `s.lstrip()` */
  function LStrip(s: string): (r: string)
    ensures |r| <= |s| && r == s[|s| - |r|..]
    ensures AllSpace(s[..|s| - |r|])
    ensures r == [] || !IsSpace(r[0])
  {
    if s != [] && IsSpace(s[0]) then LStrip(s[1..]) else s
  }

  /** `s.rstrip()` */
  function RStrip(s: string): (r: string)
    ensures |r| <= |s| && r == s[..|r|]
    ensures AllSpace(s[|r|..])
    ensures r == [] || !IsSpace(r[|r| - 1])
  {
    if s != [] && IsSpace(s[|s| - 1]) then RStrip(s[..|s| - 1]) else s
  }

  /** `s.strip()` */
  function Strip(s: string): (r: string)
    ensures r == [] || (!IsSpace(r[0]) && !IsSpace(r[|r| - 1]))
  {
    RStrip(LStrip(s))
  }

  /** A text without whitespace at either end is its own `strip()`. */
  lemma StripTrimmed(s: string)
    requires s == [] || (!IsSpace(s[0]) && !IsSpace(s[|s| - 1]))
    ensures Strip(s) == s
  {
  }

  lemma {:induction false} LStripPadded(pre: string, t: string)
    requires AllSpace(pre)
    requires t == [] || !IsSpace(t[0])
    ensures LStrip(pre + t) == t
    decreases |pre|
  {
    if pre != [] {
      assert (pre + t)[1..] == pre[1..] + t;
      LStripPadded(pre[1..], t);
    } else {
      assert pre + t == t;
    }
  }

  lemma {:induction false} RStripPadded(t: string, post: string)
    requires AllSpace(post)
    requires t == [] || !IsSpace(t[|t| - 1])
    ensures RStrip(t + post) == t
    decreases |post|
  {
    if post != [] {
      assert (t + post)[..|t + post| - 1] == t + post[..|post| - 1];
      RStripPadded(t, post[..|post| - 1]);
    } else {
      assert t + post == t;
    }
  }

  /** Stripping whitespace padding from both sides of a trimmed text gives the text. */
  lemma StripPadded(s: string, pre: string, post: string)
    requires s == [] || (!IsSpace(s[0]) && !IsSpace(s[|s| - 1]))
    requires AllSpace(pre) && AllSpace(post)
    ensures Strip(pre + s + post) == s
  {
    if s == [] {
      assert pre + s + post == (pre + post) + [];
      LStripPadded(pre + post, []);
    } else {
      assert pre + s + post == pre + (s + post);
      LStripPadded(pre, s + post);
      RStripPadded(s, post);
    }
  }

  function LowerChar(c: char): char
  {
    if 'A' <= c <= 'Z' then (c as int + 32) as char else c
  }

  /** `s.lower()` for the ASCII letters. */
  function Lower(s: string): (r: string)
    ensures |r| == |s|
    ensures forall k :: 0 <= k < |s| ==> r[k] == LowerChar(s[k])
  {
    seq(|s|, k requires 0 <= k < |s| => LowerChar(s[k]))
  }

  /** Lower-casing leaves no upper-case ASCII letter and is idempotent. */
  lemma LowerIsLower(s: string)
    ensures forall k :: 0 <= k < |Lower(s)| ==> !('A' <= Lower(s)[k] <= 'Z')
    ensures Lower(Lower(s)) == Lower(s)
  {
  }

  predicate IsDigitChar(c: char)
  {
    '0' <= c <= '9'
  }

  /** `s.isdigit()` (and `s.isnumeric()`) for ASCII digits: non-empty and all digits. */
  predicate IsDigits(s: string)
  {
    |s| > 0 && forall k :: 0 <= k < |s| ==> IsDigitChar(s[k])
  }

  /** `int(s)` on a string of decimal digits. */
  function DigitsValue(s: string): nat
    requires forall k :: 0 <= k < |s| ==> IsDigitChar(s[k])
  {
    if s == [] then 0
    else
      assert IsDigitChar(s[|s| - 1]);
      DigitsValue(s[..|s| - 1]) * 10 + (s[|s| - 1] as int - '0' as int)
  }

  /** `str(n)` for a natural number. */
  function DecimalString(n: nat): (s: string)
    ensures IsDigits(s)
  {
    if n < 10 then [('0' as int + n) as char]
    else DecimalString(n / 10) + [('0' as int + n % 10) as char]
  }

  /** `int(str(n)) == n`. */
  lemma {:induction false} DecimalRoundTrip(n: nat)
    ensures DigitsValue(DecimalString(n)) == n
  {
    var s := DecimalString(n);
    if n >= 10 {
      DecimalRoundTrip(n / 10);
      assert s[..|s| - 1] == DecimalString(n / 10);
    } else {
      assert s[..|s| - 1] == [];
    }
  }

  /** `s.endswith(suffix)` */
  predicate EndsWith(s: string, suffix: string)
  {
    |suffix| <= |s| && s[|s| - |suffix|..] == suffix
  }

  /** A pattern found first at the very end is replaced there. */
  lemma ReplaceLast(x: string, pat: string, repl: string)
    requires |pat| > 0
    requires forall j :: j < |x| ==> !OccursAt(x + pat, pat, j)
    ensures Replace(x + pat, pat, repl) == x + repl
  {
    assert x + pat + [] == x + pat;
    ReplaceFirst(x, pat, [], repl);
    assert Replace([], pat, repl) == [];
    assert x + repl + [] == x + repl;
  }

  /** A pattern whose first character is not in `x` is first found right after `x`. */
  lemma ReplaceAfter(x: string, pat: string, y: string, repl: string)
    requires |pat| > 0 && pat[0] !in x
    ensures Replace(x + pat + y, pat, repl) == x + repl + Replace(y, pat, repl)
  {
    NoStartInside(x, pat, pat + y);
    assert x + pat + y == x + (pat + y);
    ReplaceFirst(x, pat, y, repl);
  }

  /** A text without the pattern's first character is left as it is. */
  lemma ReplaceAbsent(s: string, pat: string, repl: string)
    requires |pat| > 0 && pat[0] !in s
    ensures Replace(s, pat, repl) == s
  {
    HeadAbsent(s, pat);
  }

  /** The first occurrence is replaced, and the scan goes on after it. */
  lemma ReplaceFirst(x: string, pat: string, y: string, repl: string)
    requires |pat| > 0
    requires forall j :: j < |x| ==> !OccursAt(x + pat + y, pat, j)
    ensures Replace(x + pat + y, pat, repl) == x + repl + Replace(y, pat, repl)
  {
    var s := x + pat + y;
    assert OccursAt(s, pat, |x|);
    assert IndexOf(s, pat) == Some(|x|);
    assert s[..|x|] == x;
    assert s[|x| + |pat|..] == y;
  }

  /**
   * `int(s)`: surrounding whitespace, an optional sign and at least one
   * decimal digit; anything else raises `ValueError` (here `None`).
   */
  function ParseInt(s: string): (r: Option<int>)
    ensures r.Some? ==> Strip(s) != []
  {
    var t := Strip(s);
    if |t| > 0 && (t[0] == '+' || t[0] == '-') then
      if IsDigits(t[1..]) then
        var v := DigitsValue(t[1..]) as int;
        Some(if t[0] == '-' then -v else v)
      else None
    else if IsDigits(t) then Some(DigitsValue(t))
    else None
  }

  /** `int(str(n)) == n` for a natural number ... */
  lemma ParseIntDecimal(n: nat)
    ensures ParseInt(DecimalString(n)) == Some(n)
  {
    var s := DecimalString(n);
    DecimalRoundTrip(n);
    assert IsDigitChar(s[0]) && IsDigitChar(s[|s| - 1]);
    StripTrimmed(s);
  }

  /** ... and for its negation. */
  lemma ParseIntNegative(n: nat)
    ensures ParseInt("-" + DecimalString(n)) == Some(-(n as int))
  {
    var digits := DecimalString(n);
    DecimalRoundTrip(n);
    ParseIntMinus("-" + digits, digits);
  }

  lemma ParseIntMinus(s: string, digits: string)
    requires IsDigits(digits) && |s| == |digits| + 1 && s[0] == '-' && s[1..] == digits
    ensures ParseInt(s) == Some(-(DigitsValue(digits) as int))
  {
    assert IsDigitChar(digits[|digits| - 1]);
    assert s[|s| - 1] == digits[|digits| - 1];
    StripTrimmed(s);
  }

  /**
   * `int()` ignores surrounding whitespace: a run of digits padded by
   * whitespace reads as the value of the digits, leading zeros included.
   */
  lemma ParseIntPadded(pre: string, t: string, post: string)
    requires AllSpace(pre) && AllSpace(post) && IsDigits(t)
    ensures ParseInt(pre + t + post) == Some(DigitsValue(t))
  {
    assert IsDigitChar(t[0]) && IsDigitChar(t[|t| - 1]);
    StripPadded(t, pre, post);
  }

  /** ... and a sign in front of the digits gives the value its sign. */
  lemma ParseIntPaddedSigned(pre: string, sign: char, t: string, post: string)
    requires AllSpace(pre) && AllSpace(post) && IsDigits(t) && (sign == '+' || sign == '-')
    ensures ParseInt(pre + ([sign] + t) + post)
      == Some(if sign == '-' then -(DigitsValue(t) as int) else DigitsValue(t) as int)
  {
    var u := [sign] + t;
    assert u[0] == sign && u[1..] == t;
    assert u[|u| - 1] == t[|t| - 1] && IsDigitChar(t[|t| - 1]);
    StripPadded(u, pre, post);
    ParseIntSignedCore(pre + u + post, sign, t);
  }

  lemma ParseIntSignedCore(x: string, sign: char, t: string)
    requires IsDigits(t) && (sign == '+' || sign == '-')
    requires var u := Strip(x); |u| == |t| + 1 && u[0] == sign && u[1..] == t
    ensures ParseInt(x) == Some(if sign == '-' then -(DigitsValue(t) as int) else DigitsValue(t) as int)
  {
  }

  /** A leading zero does not change the value of a numeral. */
  lemma {:induction false} LeadingZero(t: string)
    requires forall k :: 0 <= k < |t| ==> IsDigitChar(t[k])
    ensures DigitsValue("0" + t) == DigitsValue(t)
    decreases |t|
  {
    if t != [] {
      var u := "0" + t;
      assert u[..|u| - 1] == "0" + t[..|t| - 1];
      assert u[|u| - 1] == t[|t| - 1];
      LeadingZero(t[..|t| - 1]);
    }
  }

  /** Text that is not a decimal numeral is refused. */
  lemma ParseIntRejects(s: string)
    requires forall k :: 0 <= k < |s| ==> !IsDigitChar(s[k])
    ensures ParseInt(s) == None
  {
    var t := Strip(s);
    if t != [] {
      assert t == LStrip(s)[..|t|];
      assert !IsDigitChar(t[|t| - 1]);
    }
  }
}
