/**
  Shared.Helpers: the slug generator and the random pick of a predefined category name.

  Character classes are those of ASCII: `IsLetterOrDigit` is A–Z, a–z and 0–9, white space is
  space and tab through carriage return, and lowering maps A–Z to a–z and leaves every other
  character as it is.
*/
module Helpers {
  import opened Wrappers

  // ---- Character classes ----

  predicate IsLetterOrDigit(c: char)
  {
    'a' <= c <= 'z' || 'A' <= c <= 'Z' || '0' <= c <= '9'
  }

  /** A character the pattern `[a-z0-9]` accepts. */
  predicate IsSlugChar(c: char)
  {
    'a' <= c <= 'z' || '0' <= c <= '9'
  }

  /** Neither a letter or digit nor white space. */
  predicate IsPunctuation(c: char)
  {
    !IsLetterOrDigit(c) && !IsWhiteSpace(c)
  }

  function ToLower(c: char): (d: char)
    ensures IsLetterOrDigit(c) <==> IsSlugChar(d)
    ensures IsSlugChar(c) ==> d == c
  {
    if 'A' <= c <= 'Z' then (c - 'A' + 'a') as char else c
  }

  /** `ToLowerInvariant` */
  function Lower(s: string): (t: string)
    ensures |t| == |s|
  {
    seq(|s|, i requires 0 <= i < |s| => ToLower(s[i]))
  }

  // ---- The rewriting steps ----

  /** `Regex.Replace(s, "[^a-z0-9]+", "_")`: every maximal run of characters outside `[a-z0-9]`
      becomes one `_`. `inRun` says that the character before `s` was such a character. */
  function ReplaceRuns(s: string, inRun: bool): (t: string)
    decreases |s|
  {
    if s == [] then []
    else if IsSlugChar(s[0]) then [s[0]] + ReplaceRuns(s[1..], false)
    else if inRun then ReplaceRuns(s[1..], true)
    else "_" + ReplaceRuns(s[1..], true)
  }

  /** `Regex.Replace(s, "_+", "_")`: every run of underscores becomes one. */
  function CollapseUnderscores(s: string, inRun: bool): (t: string)
    decreases |s|
  {
    if s == [] then []
    else if s[0] != '_' then [s[0]] + CollapseUnderscores(s[1..], false)
    else if inRun then CollapseUnderscores(s[1..], true)
    else "_" + CollapseUnderscores(s[1..], true)
  }

  function TrimStart(s: string): (t: string)
    ensures t == [] || t[0] != '_'
    ensures |t| <= |s| && t == s[|s| - |t|..]
  {
    if s != [] && s[0] == '_' then TrimStart(s[1..]) else s
  }

  function TrimEnd(s: string): (t: string)
    ensures t == [] || t[|t| - 1] != '_'
    ensures |t| <= |s| && t == s[..|t|]
  {
    if s != [] && s[|s| - 1] == '_' then TrimEnd(s[..|s| - 1]) else s
  }

  /** `Trim('_')` */
  function Trim(s: string): (t: string)
    ensures t == [] || (t[0] != '_' && t[|t| - 1] != '_')
  {
    var u := TrimStart(s);
    var t := TrimEnd(u);
    assert t == [] || t[0] == u[0];
    t
  }

  /** The slug before the trailing-underscore rule. */
  function SlugCore(item: string): string
  {
    Trim(CollapseUnderscores(ReplaceRuns(Lower(item), false), false))
  }

  /** The position of the last character of `s` that is not white space, or -1. */
  function LastNonWhiteSpace(s: string): (last: int)
    ensures -1 <= last < |s|
    ensures 0 <= last ==> !IsWhiteSpace(s[last])
    ensures forall k :: last < k < |s| ==> IsWhiteSpace(s[k])
  {
    if s == [] then -1
    else if !IsWhiteSpace(s[|s| - 1]) then |s| - 1
    else LastNonWhiteSpace(s[..|s| - 1])
  }

  /** The trailing-underscore rule: the last non-white-space character is not a letter or digit,
      and some character before it is punctuation. */
  predicate WantsTrailingUnderscore(item: string)
  {
    var last := LastNonWhiteSpace(item);
    && 0 <= last && !IsLetterOrDigit(item[last])
    && exists j :: 0 <= j < last && IsPunctuation(item[j])
  }

  /** What `GenerateSlug` returns. */
  function SlugOf(item: Option<string>): string
  {
    if IsNullOrWhiteSpace(item) then ""
    else
      var core := SlugCore(item.value);
      if core != [] && WantsTrailingUnderscore(item.value) then core + "_" else core
  }

  /** `GenerateSlug`: the rewriting steps in order, then the while loop that finds the last
      non-white-space character and the for loop that looks for punctuation before it. */
  method GenerateSlug(item: Option<string>) returns (slug: string)
    ensures slug == SlugOf(item)
  {
    if IsNullOrWhiteSpace(item) {
      return "";
    }
    var s := item.value;
    slug := Lower(s);
    slug := ReplaceRuns(slug, false);
    slug := CollapseUnderscores(slug, false);
    slug := Trim(slug);
    assert slug == SlugCore(s);
    if !IsNullOrEmpty(item) && slug != [] && slug[|slug| - 1] != '_' {
      var last := |s| - 1;
      while last >= 0 && IsWhiteSpace(s[last])
        invariant -1 <= last < |s|
        invariant forall k :: last < k < |s| ==> IsWhiteSpace(s[k])
        decreases last + 1
      {
        last := last - 1;
      }
      LastNonWhiteSpaceUnique(s, last);
      if last >= 0 && !IsLetterOrDigit(s[last]) {
        var hasInternalPunctuation := false;
        for j := 0 to last
          invariant !hasInternalPunctuation
          invariant forall k :: 0 <= k < j ==> !IsPunctuation(s[k])
        {
          var ch := s[j];
          if !IsLetterOrDigit(ch) && !IsWhiteSpace(ch) {
            hasInternalPunctuation := true;
            assert IsPunctuation(s[j]);
            break;
          }
        }
        if hasInternalPunctuation {
          slug := slug + "_";
        }
      }
    }
  }

  /** The position the while loop stops at is the last non-white-space character. */
  lemma {:induction false} LastNonWhiteSpaceUnique(s: string, last: int)
    requires -1 <= last < |s|
    requires last < 0 || !IsWhiteSpace(s[last])
    requires forall k :: last < k < |s| ==> IsWhiteSpace(s[k])
    ensures LastNonWhiteSpace(s) == last
    decreases |s|
  {
    if s != [] && IsWhiteSpace(s[|s| - 1]) {
      LastNonWhiteSpaceUnique(s[..|s| - 1], last);
    }
  }

  // ---- What the slug looks like ----

  /** Only `[a-z0-9_]`. */
  predicate SlugAlphabet(s: string)
  {
    forall i :: 0 <= i < |s| ==> IsSlugChar(s[i]) || s[i] == '_'
  }

  predicate NoDoubleUnderscore(s: string)
  {
    forall i :: 0 <= i < |s| - 1 ==> !(s[i] == '_' && s[i + 1] == '_')
  }

  /** Replacing the runs yields only `[a-z0-9_]`, never two underscores in a row, and, inside a
      run, nothing that starts with an underscore. */
  lemma {:induction false} ReplaceRunsShape(s: string, inRun: bool)
    ensures var t := ReplaceRuns(s, inRun);
      SlugAlphabet(t) && NoDoubleUnderscore(t) && (inRun ==> t == [] || t[0] != '_')
    decreases |s|
  {
    if s != [] {
      ReplaceRunsShape(s[1..], !IsSlugChar(s[0]));
    }
  }

  /** Collapsing underscores changes nothing in a string that has no two in a row. */
  lemma {:induction false} CollapseIsIdentity(s: string, inRun: bool)
    requires NoDoubleUnderscore(s)
    requires inRun ==> s == [] || s[0] != '_'
    ensures CollapseUnderscores(s, inRun) == s
    decreases |s|
  {
    if s != [] {
      CollapseIsIdentity(s[1..], s[0] == '_');
      assert [s[0]] + s[1..] == s;
    }
  }

  /** Trimming keeps a contiguous part of the string, so it keeps both shapes. */
  lemma TrimKeepsShape(s: string)
    ensures SlugAlphabet(s) ==> SlugAlphabet(Trim(s))
    ensures NoDoubleUnderscore(s) ==> NoDoubleUnderscore(Trim(s))
  {
    var u := TrimStart(s);
    SliceKeepsShape(s, |s| - |u|, |s|);
    var t := TrimEnd(u);
    SliceKeepsShape(u, 0, |t|);
    TrimIsBothEnds(s);
  }

  /** A contiguous part of a string keeps both shapes. */
  lemma SliceKeepsShape(s: string, a: nat, b: nat)
    requires a <= b <= |s|
    ensures SlugAlphabet(s) ==> SlugAlphabet(s[a..b])
    ensures NoDoubleUnderscore(s) ==> NoDoubleUnderscore(s[a..b])
  {
    var t := s[a..b];
    assert forall i :: 0 <= i < |t| ==> t[i] == s[a + i];
  }

  /** The core is `[a-z0-9_]` only, has no two underscores in a row, and neither starts nor ends
      with one; the collapsing step never changes anything. */
  lemma SlugCoreShape(item: string)
    ensures var core := SlugCore(item);
      && SlugAlphabet(core) && NoDoubleUnderscore(core)
      && (core == [] || (core[0] != '_' && core[|core| - 1] != '_'))
    ensures CollapseUnderscores(ReplaceRuns(Lower(item), false), false) == ReplaceRuns(Lower(item), false)
  {
    var r := ReplaceRuns(Lower(item), false);
    ReplaceRunsShape(Lower(item), false);
    CollapseIsIdentity(r, false);
    TrimKeepsShape(r);
  }

  /** GenerateSlug's output uses only `a`–`z`, `0`–`9` and `_`, never holds two underscores in a
      row and never starts with one. */
  lemma SlugShape(item: Option<string>)
    ensures var slug := SlugOf(item);
      && SlugAlphabet(slug) && NoDoubleUnderscore(slug) && (slug == [] || slug[0] != '_')
  {
    if !IsNullOrWhiteSpace(item) {
      var core := SlugCore(item.value);
      SlugCoreShape(item.value);
      if core != [] && WantsTrailingUnderscore(item.value) {
        AppendUnderscoreKeepsShape(core);
      }
    }
  }

  /** One underscore after a core that does not end with one keeps both shapes. */
  lemma AppendUnderscoreKeepsShape(core: string)
    requires SlugAlphabet(core) && NoDoubleUnderscore(core)
    requires core != [] && core[0] != '_' && core[|core| - 1] != '_'
    ensures var t := core + "_";
      SlugAlphabet(t) && NoDoubleUnderscore(t) && t[0] != '_'
  {
    var t := core + "_";
    assert forall i :: 0 <= i < |core| ==> t[i] == core[i];
    assert t[|core|] == '_';
  }

  // ---- The words of the input ----

  /** The number of leading characters of `s` in `[a-z0-9]`. */
  function WordLength(s: string): (n: nat)
    ensures n <= |s|
    ensures forall i :: 0 <= i < n ==> IsSlugChar(s[i])
    ensures n < |s| ==> !IsSlugChar(s[n])
  {
    if s != [] && IsSlugChar(s[0]) then 1 + WordLength(s[1..]) else 0
  }

  /** A run of one or more `[a-z0-9]` characters. */
  predicate IsWord(w: string)
  {
    w != [] && forall i :: 0 <= i < |w| ==> IsSlugChar(w[i])
  }

  /** The maximal runs of `[a-z0-9]` characters of `s`, in order. */
  function Words(s: string): (ws: seq<string>)
    decreases |s|
  {
    if s == [] then []
    else if !IsSlugChar(s[0]) then Words(s[1..])
    else
      var n := WordLength(s);
      [s[..n]] + Words(s[n..])
  }

  /** Every element of `Words(s)` is a word. */
  lemma {:induction false} WordsAreWords(s: string)
    ensures forall k :: 0 <= k < |Words(s)| ==> IsWord(Words(s)[k])
    decreases |s|
  {
    if s != [] {
      if !IsSlugChar(s[0]) {
        WordsAreWords(s[1..]);
      } else {
        var n := WordLength(s);
        WordsAreWords(s[n..]);
        assert IsWord(s[..n]);
      }
    }
  }

  /** `s` has no words exactly when none of its characters is in `[a-z0-9]`. */
  lemma {:induction false} WordsEmptyIff(s: string)
    ensures Words(s) == [] <==> forall i :: 0 <= i < |s| ==> !IsSlugChar(s[i])
    decreases |s|
  {
    if s != [] && !IsSlugChar(s[0]) {
      WordsEmptyIff(s[1..]);
      assert forall i :: 1 <= i < |s| ==> s[i] == s[1..][i - 1];
    }
  }

  /** The words separated by single underscores. */
  function Join(ws: seq<string>): (t: string)
  {
    if ws == [] then []
    else if |ws| == 1 then ws[0]
    else ws[0] + "_" + Join(ws[1..])
  }

  /** Joining words gives a string that starts and ends with a letter or digit. */
  lemma {:induction false} JoinEnds(ws: seq<string>)
    requires ws != [] && forall k :: 0 <= k < |ws| ==> IsWord(ws[k])
    ensures var t := Join(ws); t != [] && IsSlugChar(t[0]) && IsSlugChar(t[|t| - 1])
  {
    assert IsWord(ws[0]);
    if |ws| > 1 {
      JoinEnds(ws[1..]);
      assert IsWord(ws[1..][0]);
    }
  }

  /** `s` ends with a character outside `[a-z0-9]`. */
  predicate EndsOutsideWord(s: string)
  {
    s != [] && !IsSlugChar(s[|s| - 1])
  }

  /** Inside a run of `[a-z0-9]` the replacement copies the run unchanged. */
  lemma {:induction false} ReplaceRunsCopiesWord(s: string, n: nat, inRun: bool)
    requires 1 <= n <= |s|
    requires forall i :: 0 <= i < n ==> IsSlugChar(s[i])
    ensures ReplaceRuns(s, inRun) == s[..n] + ReplaceRuns(s[n..], false)
    decreases n
  {
    if n > 1 {
      ReplaceRunsCopiesWord(s[1..], n - 1, false);
      assert s[1..][n - 1..] == s[n..];
      assert [s[0]] + s[1..][..n - 1] == s[..n];
    } else {
      assert s[..1] == [s[0]];
    }
  }

  /** What the replacement gives for `s` when it starts inside a run: the words joined by
      underscores, and one underscore more when `s` ends outside a word after some word. */
  function InRunForm(s: string): string
  {
    Join(Words(s)) + (if Words(s) != [] && EndsOutsideWord(s) then "_" else "")
  }

  /** Starting inside a run, the replacement is `InRunForm`. */
  lemma {:induction false} ReplaceRunsInRun(s: string)
    ensures ReplaceRuns(s, true) == InRunForm(s)
    decreases |s|
  {
    if s == [] {
    } else if !IsSlugChar(s[0]) {
      ReplaceRunsInRun(s[1..]);
      SkipOutsideWord(s);
    } else {
      var n := WordLength(s);
      ReplaceRunsCopiesWord(s, n, true);
      if n == |s| {
        assert s[..n] == s && s[n..] == [];
        assert Words(s) == [s];
        assert ReplaceRuns(s, true) == s + [];
      } else {
        ReplaceRunsInRun(s[n + 1..]);
        WordThenRest(s, n);
      }
    }
  }

  /** A leading character outside `[a-z0-9]` changes neither the words nor the form. */
  lemma SkipOutsideWord(s: string)
    requires s != [] && !IsSlugChar(s[0])
    ensures Words(s) == Words(s[1..])
    ensures InRunForm(s) == InRunForm(s[1..])
  {
    WordsEmptyIff(s[1..]);
    if s[1..] != [] {
      assert s[|s| - 1] == s[1..][|s[1..]| - 1];
    }
  }

  /** A word followed by a character outside `[a-z0-9]`: the word, an underscore, and the form
      of what follows. */
  lemma WordThenRest(s: string, n: nat)
    requires 1 <= n < |s| && n == WordLength(s)
    requires ReplaceRuns(s[n + 1..], true) == InRunForm(s[n + 1..])
    requires ReplaceRuns(s, true) == s[..n] + ReplaceRuns(s[n..], false)
    ensures ReplaceRuns(s, true) == InRunForm(s)
  {
    var w, r' := s[..n], s[n + 1..];
    var x := ReplaceRuns(r', true);
    SeparatorThenRest(s, n);
    assert ReplaceRuns(s, true) == w + ("_" + x);
    WordsAfterWord(s, n);
    if Words(r') == [] {
      EndsOutsideAfterNoWords(s, n);
      assert Words(s) == [w];
      assert InRunForm(s) == w + "_";
      assert x == [];
      ConcatAssoc(w, "_", []);
    } else {
      EndsLikeSuffix(s, n + 1);
      JoinCons(w, Words(r'));
      var tail := if EndsOutsideWord(s) then "_" else "";
      assert x == Join(Words(r')) + tail;
      assert InRunForm(s) == (w + "_" + Join(Words(r'))) + tail;
      ConcatAssoc4(w, Join(Words(r')), tail);
    }
  }

  /** The character after the word is outside `[a-z0-9]`, so the replacement writes one underscore
      and goes on inside a run. */
  lemma SeparatorThenRest(s: string, n: nat)
    requires 1 <= n < |s| && n == WordLength(s)
    ensures ReplaceRuns(s[n..], false) == "_" + ReplaceRuns(s[n + 1..], true)
  {
    assert s[n..][1..] == s[n + 1..];
  }

  lemma ConcatAssoc(a: string, b: string, c: string)
    ensures a + (b + c) == a + b + c
  {
  }

  lemma ConcatAssoc4(w: string, j: string, tail: string)
    ensures w + ("_" + (j + tail)) == (w + "_" + j) + tail
  {
  }

  /** After a word and one character outside `[a-z0-9]`, the words are that word and those of the rest. */
  lemma WordsAfterWord(s: string, n: nat)
    requires 1 <= n < |s| && n == WordLength(s)
    ensures Words(s) == [s[..n]] + Words(s[n + 1..])
  {
    assert s[n..][1..] == s[n + 1..];
  }

  lemma JoinCons(w: string, ws: seq<string>)
    requires ws != []
    ensures Join([w] + ws) == w + "_" + Join(ws)
  {
    assert ([w] + ws)[1..] == ws;
  }

  /** A non-empty suffix ends where the string ends. */
  lemma EndsLikeSuffix(s: string, k: nat)
    requires k <= |s|
    ensures s[k..] != [] ==> EndsOutsideWord(s[k..]) == EndsOutsideWord(s)
  {
    if s[k..] != [] {
      assert s[k..][|s[k..]| - 1] == s[|s| - 1];
    }
  }

  /** When nothing after the word and its separator is in `[a-z0-9]`, `s` ends outside a word. */
  lemma EndsOutsideAfterNoWords(s: string, n: nat)
    requires 1 <= n < |s| && n == WordLength(s)
    requires Words(s[n + 1..]) == []
    ensures EndsOutsideWord(s)
  {
    WordsEmptyIff(s[n + 1..]);
    if |s| - 1 > n {
      assert s[|s| - 1] == s[n + 1..][|s| - 1 - (n + 1)];
    }
  }

  /** Trimming underscores off a joined string with at most one underscore at each end gives the
      joined string back. */
  lemma TrimAroundJoin(pre: string, j: string, post: string)
    requires pre == [] || pre == "_"
    requires post == [] || post == "_"
    requires j == [] ==> post == []
    requires j != [] ==> IsSlugChar(j[0]) && IsSlugChar(j[|j| - 1])
    ensures Trim(pre + j + post) == j
  {
    var x := j + post;
    assert pre + j + post == pre + x;
    TrimStartPrefixed(pre, x);
    TrimEndSuffixed(j, post);
    TrimIsBothEnds(pre + x);
  }

  lemma TrimIsBothEnds(s: string)
    ensures Trim(s) == TrimEnd(TrimStart(s))
  {
  }

  /** At most one underscore before a string that does not start with one is trimmed away. */
  lemma TrimStartPrefixed(pre: string, x: string)
    requires pre == [] || pre == "_"
    requires x == [] || x[0] != '_'
    ensures TrimStart(pre + x) == x
  {
    TrimStartKeeps(x);
    if pre == "_" {
      TrimStartDropsOne(x);
    } else {
      assert pre + x == x;
    }
  }

  /** At most one underscore after a string that does not end with one is trimmed away. */
  lemma TrimEndSuffixed(j: string, post: string)
    requires post == [] || post == "_"
    requires j == [] ==> post == []
    requires j != [] ==> j[|j| - 1] != '_'
    ensures TrimEnd(j + post) == j
  {
    TrimEndKeeps(j);
    if post == "_" {
      TrimEndDropsOne(j);
    } else {
      assert j + post == j;
    }
  }

  lemma TrimStartDropsOne(x: string)
    ensures TrimStart("_" + x) == TrimStart(x)
  {
    assert ("_" + x)[1..] == x;
  }

  lemma TrimEndDropsOne(x: string)
    ensures TrimEnd(x + "_") == TrimEnd(x)
  {
    assert (x + "_")[..|x|] == x;
  }

  lemma TrimStartKeeps(x: string)
    requires x == [] || x[0] != '_'
    ensures TrimStart(x) == x
  {
  }

  lemma TrimEndKeeps(x: string)
    requires x == [] || x[|x| - 1] != '_'
    ensures TrimEnd(x) == x
  {
  }

  /** The core of the slug is the words of the lowered input joined by single underscores. */
  lemma SlugCoreIsJoinedWords(item: string)
    ensures SlugCore(item) == Join(Words(Lower(item)))
  {
    SlugCoreShape(item);
    TrimReplaceRuns(Lower(item));
  }

  /** Replacing the runs and trimming gives the words joined by single underscores. */
  lemma TrimReplaceRuns(s: string)
    ensures Trim(ReplaceRuns(s, false)) == Join(Words(s))
  {
    if s == [] || IsSlugChar(s[0]) {
      ReplaceRunsInRun(s);
      StartInWord(s);
      TrimInRunForm([], s);
    } else {
      ReplaceRunsInRun(s[1..]);
      SkipOutsideWord(s);
      StartOutsideWord(s);
      TrimInRunForm("_", s);
    }
  }

  /** Trimming the form, with at most one underscore before it, leaves the joined words. */
  lemma TrimInRunForm(pre: string, s: string)
    requires pre == [] || pre == "_"
    ensures Trim(pre + InRunForm(s)) == Join(Words(s))
  {
    var ws := Words(s);
    WordsAreWords(s);
    if ws != [] { JoinEnds(ws); }
    var post := if ws != [] && EndsOutsideWord(s) then "_" else "";
    assert InRunForm(s) == Join(ws) + post;
    ConcatAssoc(pre, Join(ws), post);
    TrimAroundJoin(pre, Join(ws), post);
  }

  /** At a word, or at the end, being inside a run or not makes no difference. */
  lemma StartInWord(s: string)
    requires s == [] || IsSlugChar(s[0])
    ensures ReplaceRuns(s, false) == ReplaceRuns(s, true)
  {
  }

  /** Outside a word and not in a run, the replacement writes one underscore first. */
  lemma StartOutsideWord(s: string)
    requires s != [] && !IsSlugChar(s[0])
    ensures ReplaceRuns(s, false) == "_" + ReplaceRuns(s[1..], true)
  {
  }

  /** The core is empty exactly when the input has no letter or digit. */
  lemma SlugCoreEmptyIff(item: string)
    ensures SlugCore(item) == [] <==> forall i :: 0 <= i < |item| ==> !IsLetterOrDigit(item[i])
  {
    SlugCoreIsJoinedWords(item);
    JoinEmptyIff(Lower(item));
    WordsEmptyIff(Lower(item));
    LowerKeepsLettersAndDigits(item);
  }

  /** The joined words are empty exactly when there are no words. */
  lemma JoinEmptyIff(s: string)
    ensures Join(Words(s)) == [] <==> Words(s) == []
  {
    WordsAreWords(s);
    if Words(s) != [] {
      JoinEnds(Words(s));
    }
  }

  /** Lowering maps letters and digits, and only those, into `[a-z0-9]`. */
  lemma LowerKeepsLettersAndDigits(s: string)
    ensures forall i :: 0 <= i < |s| ==> (IsLetterOrDigit(s[i]) <==> IsSlugChar(Lower(s)[i]))
  {
    forall i | 0 <= i < |s|
      ensures IsLetterOrDigit(s[i]) <==> IsSlugChar(Lower(s)[i])
    {
      assert Lower(s)[i] == ToLower(s[i]);
    }
  }

  /** The slug ends with an underscore exactly when the input has a letter or digit, its last
      non-white-space character is not a letter or digit, and some character before that one is
      punctuation. */
  lemma TrailingUnderscoreIff(item: string)
    ensures var slug := SlugOf(Some(item));
      (slug != [] && slug[|slug| - 1] == '_') <==>
      && (exists i :: 0 <= i < |item| && IsLetterOrDigit(item[i]))
      && 0 <= LastNonWhiteSpace(item) && !IsLetterOrDigit(item[LastNonWhiteSpace(item)])
      && (exists j :: 0 <= j < LastNonWhiteSpace(item) && IsPunctuation(item[j]))
  {
    SlugCoreEmptyIff(item);
    SlugEndsWithUnderscoreIff(item);
  }

  /** The slug ends with an underscore exactly when the core is not empty and the trailing rule
      applies. */
  lemma SlugEndsWithUnderscoreIff(item: string)
    ensures var slug := SlugOf(Some(item));
      (slug != [] && slug[|slug| - 1] == '_') <==> SlugCore(item) != [] && WantsTrailingUnderscore(item)
  {
    var core := SlugCore(item);
    var slug := SlugOf(Some(item));
    SlugCoreShape(item);
    if IsNullOrWhiteSpace(Some(item)) {
      SlugCoreEmptyIff(item);
      assert forall i :: 0 <= i < |item| ==> !IsLetterOrDigit(item[i]);
      assert core == [];
    } else if core != [] && WantsTrailingUnderscore(item) {
      assert slug == core + "_";
    } else {
      assert slug == core;
    }
  }

  /** A null, empty or white-space-only input gives the empty slug. */
  lemma BlankGivesEmpty(item: Option<string>)
    requires IsNullOrWhiteSpace(item)
    ensures SlugOf(item) == ""
  {
  }

  // ---- GetRandomCategoryName ----

  /** The nine `MyCategories` names, in their declared order. */
  const CategoryNames: seq<string> := [
    "ASP.NET Core", "Blazor Server", "Blazor WebAssembly", "C# Programming",
    "Entity Framework Core (EF Core)", ".NET MAUI", "General Programming", "Web Development",
    "Other .NET Topics"]

  /** `GetRandomCategoryName`, given the value `Random.Shared.Next(9)` produced, which lies in 0..8. */
  function GetRandomCategoryName(roll: nat): (name: string)
    requires roll < 9
    ensures name in CategoryNames
    ensures name == CategoryNames[roll]
  {
    CategoryNames[roll]
  }

  /** Every predefined name can be drawn. */
  lemma EveryCategoryNameCanBeDrawn(name: string)
    requires name in CategoryNames
    ensures exists roll: nat :: roll < 9 && GetRandomCategoryName(roll) == name
  {
    var k :| 0 <= k < |CategoryNames| && CategoryNames[k] == name;
    assert GetRandomCategoryName(k) == name;
  }
}
