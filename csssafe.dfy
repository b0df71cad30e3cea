/**
 * css_safe_class: a string turned into something usable as a CSS class
 * name. Every run of characters that are not ASCII letters becomes one `-`,
 * the letters are lower-cased and the `-` at either end are trimmed. The
 * script defines the function but never calls it; selectors are built by
 * Css.Selector instead.
 */
module CssSafe {
  import opened Text

  /** The suffix of `s` that starts at its first letter (all of it is dropped when there is none). */
  function SkipNonLetters(s: string): (r: string)
    ensures |r| <= |s|
    ensures r == [] || IsAlpha(r[0])
    ensures s != [] && !IsAlpha(s[0]) ==> |r| < |s|
    decreases |s|
  {
    if s == [] || IsAlpha(s[0]) then s else SkipNonLetters(s[1..])
  }

  /**
   * `preg_replace('/[^a-z]+/i', '-', $s)`: every maximal run of non-letters
   * replaced by one `-`. What is left is letters and single hyphens, and it
   * starts with a letter exactly when `s` does.
   */
  function Collapse(s: string): (r: string)
    ensures forall i :: 0 <= i < |r| ==> IsAlpha(r[i]) || r[i] == '-'
    ensures forall i :: 0 <= i < |r| - 1 ==> r[i] != '-' || r[i + 1] != '-'
    ensures (r == []) == (s == [])
    ensures s != [] ==> (IsAlpha(r[0]) <==> IsAlpha(s[0]))
    decreases |s|
  {
    if s == [] then []
    else if IsAlpha(s[0]) then [s[0]] + Collapse(s[1..])
    else "-" + Collapse(SkipNonLetters(s))
  }

  /** `ltrim($s, '-')`. */
  function TrimStart(s: string): (r: string)
    ensures |r| <= |s| && r == s[|s| - |r|..]
    ensures r == [] || r[0] != '-'
    ensures forall i :: 0 <= i < |s| - |r| ==> s[i] == '-'
    decreases |s|
  {
    if s != [] && s[0] == '-' then
      var r := TrimStart(s[1..]);
      assert s[|s| - |r|..] == s[1..][|s| - 1 - |r|..] == r;
      assert forall i :: 1 <= i < |s| - |r| ==> s[i] == s[1..][i - 1];
      r
    else s
  }

  /** `rtrim($s, '-')`. */
  function TrimEnd(s: string): (r: string)
    ensures |r| <= |s| && r == s[..|r|]
    ensures r == [] || r[|r| - 1] != '-'
    ensures forall i :: |r| <= i < |s| ==> s[i] == '-'
    decreases |s|
  {
    if s != [] && s[|s| - 1] == '-' then TrimEnd(s[..|s| - 1]) else s
  }

  /** `trim($s, '-')`. */
  function Trim(s: string): string
  {
    TrimEnd(TrimStart(s))
  }

  /** Letters and hyphens, never two hyphens in a row: what Collapse leaves. */
  predicate SingleHyphens(t: string)
  {
    && (forall i :: 0 <= i < |t| ==> IsAlpha(t[i]) || t[i] == '-')
    && (forall i :: 0 <= i < |t| - 1 ==> t[i] != '-' || t[i + 1] != '-')
  }

  /** No hyphen at either end: what `trim($s, '-')` leaves. */
  predicate Trimmed(u: string)
  {
    u != [] ==> u[0] != '-' && u[|u| - 1] != '-'
  }

  /** Letters and hyphens, each hyphen between two letters. */
  predicate Hyphenated(u: string)
  {
    SingleHyphens(u) && Trimmed(u)
  }

  predicate NoUpper(t: string)
  {
    forall i :: 0 <= i < |t| ==> !IsUpper(t[i])
  }

  /** What css_safe_class promises: hyphenated, in lower case. */
  predicate IsCssSafe(u: string)
  {
    Hyphenated(u) && NoUpper(u)
  }

  lemma LowerOfSingleHyphens(t: string)
    requires SingleHyphens(t)
    ensures SingleHyphens(Lower(t)) && NoUpper(Lower(t))
  {
    var l := Lower(t);
    assert forall i :: 0 <= i < |t| ==> (l[i] == '-' <==> t[i] == '-');
  }

  lemma SingleHyphensSuffix(t: string, k: nat)
    requires SingleHyphens(t) && NoUpper(t) && k <= |t|
    ensures SingleHyphens(t[k..]) && NoUpper(t[k..])
  {
    assert forall i :: 0 <= i < |t| - k ==> t[k..][i] == t[k + i];
  }

  lemma SingleHyphensPrefix(t: string, k: nat)
    requires SingleHyphens(t) && NoUpper(t) && k <= |t|
    ensures SingleHyphens(t[..k]) && NoUpper(t[..k])
  {
    assert forall i :: 0 <= i < k ==> t[..k][i] == t[i];
  }

  /** Trimming a lower-case string of letters and single hyphens leaves a safe class name. */
  lemma TrimIsSafe(t: string)
    requires SingleHyphens(t) && NoUpper(t)
    ensures IsCssSafe(Trim(t))
  {
    var start := TrimStart(t);
    SingleHyphensSuffix(t, |t| - |start|);
    var r := TrimEnd(start);
    SingleHyphensPrefix(start, |r|);
    assert r != [] ==> r[0] == start[0];
  }

  /** Line 239: `trim(strtolower(preg_replace('/[^a-z]+/i', '-', $s)), '-')`. */
  function CssSafeClass(s: string): (r: string)
    ensures IsCssSafe(r)
  {
    var collapsed := Collapse(s);
    assert SingleHyphens(collapsed);
    LowerOfSingleHyphens(collapsed);
    TrimIsSafe(Lower(collapsed));
    Trim(Lower(collapsed))
  }

  // ---------------------------------------------------------------------
  // A reference definition: the words of the input, joined by hyphens

  /**
   * The maximal runs of letters in `s`, in order: what
   * `preg_split('/[^a-z]+/i', $s, -1, PREG_SPLIT_NO_EMPTY)` returns.
   */
  function Words(s: string): (ws: seq<string>)
    ensures forall w :: w in ws ==> w != [] && forall i :: 0 <= i < |w| ==> IsAlpha(w[i])
    ensures s != [] && IsAlpha(s[0]) ==> ws != [] && ws[0][0] == s[0]
    decreases |s|
  {
    if s == [] then []
    else
      var rest := Words(s[1..]);
      if !IsAlpha(s[0]) then rest
      else if |s| > 1 && IsAlpha(s[1]) then [[s[0]] + rest[0]] + rest[1..]
      else [[s[0]]] + rest
  }

  function LowerAll(ws: seq<string>): (r: seq<string>)
    ensures |r| == |ws| && forall i :: 0 <= i < |ws| ==> r[i] == Lower(ws[i])
  {
    seq(|ws|, i requires 0 <= i < |ws| => Lower(ws[i]))
  }

  /** `implode('-', $words)`, which is empty for no words. */
  function JoinHyphens(ws: seq<string>): string
  {
    if ws == [] then [] else Join(ws, '-')
  }

  /** Collapsing the runs of non-letters leaves the words as they were. */
  lemma {:induction false} WordsOfCollapse(s: string)
    ensures Words(Collapse(s)) == Words(s)
    decreases |s|
  {
    if s != [] {
      if IsAlpha(s[0]) {
        WordsOfCollapse(s[1..]);
        assert ([s[0]] + Collapse(s[1..]))[1..] == Collapse(s[1..]);
      } else {
        var rest := SkipNonLetters(s);
        WordsOfCollapse(rest);
        assert ("-" + Collapse(rest))[1..] == Collapse(rest);
        WordsOfSkip(s);
      }
    }
  }

  lemma {:induction false} WordsOfSkip(s: string)
    ensures Words(SkipNonLetters(s)) == Words(s)
    decreases |s|
  {
    if s != [] && !IsAlpha(s[0]) {
      WordsOfSkip(s[1..]);
    }
  }

  lemma LowerAllGlued(c: char, ws: seq<string>)
    requires ws != []
    ensures LowerAll([[c] + ws[0]] + ws[1..]) == [[LowerChar(c)] + Lower(ws[0])] + LowerAll(ws)[1..]
  {
    assert Lower([c] + ws[0]) == [LowerChar(c)] + Lower(ws[0]);
  }

  lemma LowerAllSeparate(c: char, ws: seq<string>)
    ensures LowerAll([[c]] + ws) == [[LowerChar(c)]] + LowerAll(ws)
  {
    assert Lower([c]) == [LowerChar(c)];
  }

  /** Lower-casing a string lower-cases its words and keeps their boundaries. */
  lemma {:induction false} WordsOfLower(s: string)
    ensures Words(Lower(s)) == LowerAll(Words(s))
    decreases |s|
  {
    if s != [] {
      var l := Lower(s);
      WordsOfLower(s[1..]);
      assert l[1..] == Lower(s[1..]);
      var rest := Words(s[1..]);
      if IsAlpha(s[0]) && |s| > 1 && IsAlpha(s[1]) {
        assert Words(l) == [[l[0]] + LowerAll(rest)[0]] + LowerAll(rest)[1..];
        LowerAllGlued(s[0], rest);
      } else if IsAlpha(s[0]) {
        assert Words(l) == [[l[0]]] + LowerAll(rest);
        LowerAllSeparate(s[0], rest);
      }
    }
  }

  /** Hyphens at the front do not change the words. */
  lemma {:induction false} WordsOfTrimStart(s: string)
    ensures Words(TrimStart(s)) == Words(s)
    decreases |s|
  {
    if s != [] && s[0] == '-' {
      WordsOfTrimStart(s[1..]);
    }
  }

  lemma {:induction false} WordsDropHyphen(s: string)
    ensures Words(s + "-") == Words(s)
    decreases |s|
  {
    if s != [] {
      WordsDropHyphen(s[1..]);
      assert (s + "-")[1..] == s[1..] + "-";
    }
  }

  /** Hyphens at the end do not change the words. */
  lemma {:induction false} WordsOfTrimEnd(s: string)
    ensures Words(TrimEnd(s)) == Words(s)
    decreases |s|
  {
    if s != [] && s[|s| - 1] == '-' {
      var init := s[..|s| - 1];
      WordsOfTrimEnd(init);
      WordsDropHyphen(init);
      assert s == init + "-";
    }
  }

  lemma JoinGlued(c: char, ws: seq<string>)
    requires ws != []
    ensures JoinHyphens([[c] + ws[0]] + ws[1..]) == [c] + JoinHyphens(ws)
  {
    JoinCons(c, ws, '-');
  }

  lemma JoinSeparate(c: char, ws: seq<string>)
    requires ws != []
    ensures JoinHyphens([[c]] + ws) == [c] + "-" + JoinHyphens(ws)
  {
    assert ([[c]] + ws)[1..] == ws;
  }

  /** A hyphenated string is its own words joined by hyphens. */
  lemma {:induction false} HyphenatedIsJoinedWords(u: string)
    requires Hyphenated(u)
    ensures JoinHyphens(Words(u)) == u
    decreases |u|
  {
    if |u| > 1 {
      var tail := u[1..];
      if IsAlpha(tail[0]) {
        HyphenatedTail(u);
        HyphenatedIsJoinedWords(tail);
        JoinGlued(u[0], Words(tail));
        assert u == [u[0]] + tail;
      } else {
        var rest := tail[1..];
        HyphenatedAfterHyphen(u);
        HyphenatedIsJoinedWords(rest);
        JoinSeparate(u[0], Words(rest));
        assert u == [u[0]] + "-" + rest;
      }
    }
  }

  /** A hyphenated string less its first letter, when a letter follows it, is hyphenated. */
  lemma HyphenatedTail(u: string)
    requires Hyphenated(u) && |u| > 1 && IsAlpha(u[1])
    ensures Hyphenated(u[1..])
  {
    assert forall i :: 0 <= i < |u| - 1 ==> u[1..][i] == u[i + 1];
  }

  /** A hyphenated string whose second character is a hyphen goes on, hyphenated, after it. */
  lemma HyphenatedAfterHyphen(u: string)
    requires Hyphenated(u) && |u| > 1 && !IsAlpha(u[1])
    ensures u[1] == '-' && |u| > 2 && Hyphenated(u[2..])
  {
    assert forall i :: 0 <= i < |u| - 2 ==> u[2..][i] == u[i + 2];
  }

  /**
   * css_safe_class in one line: the words of the input (the runs of ASCII
   * letters), lower-cased and joined by single hyphens.
   */
  lemma CssSafeClassWords(s: string)
    ensures CssSafeClass(s) == JoinHyphens(LowerAll(Words(s)))
  {
    var collapsed := Collapse(s);
    var lowered := Lower(collapsed);
    var start := TrimStart(lowered);
    var r := TrimEnd(start);
    assert r == CssSafeClass(s);
    SafeIsLower(r);
    HyphenatedIsJoinedWords(r);
    WordsOfTrimEnd(start);
    WordsOfTrimStart(lowered);
    WordsOfLower(collapsed);
    WordsOfCollapse(s);
  }

  /** A safe class name is its own lower-case form. */
  lemma SafeIsLower(u: string)
    requires IsCssSafe(u)
    ensures Lower(u) == u
  {
    assert forall i :: 0 <= i < |u| ==> Lower(u)[i] == u[i];
  }

  /** Cleaning a class name that is already safe gives it back unchanged. */
  lemma CssSafeClassOfSafe(u: string)
    requires IsCssSafe(u)
    ensures CssSafeClass(u) == u
  {
    SafeIsLower(u);
    WordsOfLower(u);
    HyphenatedIsJoinedWords(u);
    CssSafeClassWords(u);
  }

  /** css_safe_class is idempotent. */
  lemma CssSafeClassIdempotent(s: string)
    ensures CssSafeClass(CssSafeClass(s)) == CssSafeClass(s)
  {
    CssSafeClassOfSafe(CssSafeClass(s));
  }
}
