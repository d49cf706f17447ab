/**
 * The .NET string operations the frame reader relies on, as pure functions:
 * trimming white space, splitting on line feeds with empty entries kept,
 * and splitting on tabs and spaces with empty entries removed.
 */
module TextOps {

  /**
   * The characters `Char.IsWhiteSpace` accepts, which `String.Trim()` strips:
   * U+0009..U+000D and space, then U+0085, U+00A0, U+1680, U+2000..U+200A,
   * U+2028, U+2029, U+202F, U+205F and U+3000.
   */
  predicate IsWhiteSpace(ch: char) {
    if ch <= ' ' then ('\t' <= ch <= '\r') || ch == ' '
    else if ch < '\U{0085}' then false
    else IsWideWhiteSpace(ch)
  }

  /** The white space characters above U+007F. */
  predicate IsWideWhiteSpace(ch: char) {
    || ch == '\U{0085}'
    || ch == '\U{00A0}'
    || ch == '\U{1680}'
    || ('\U{2000}' <= ch <= '\U{200A}')
    || ch == '\U{2028}'
    || ch == '\U{2029}'
    || ch == '\U{202F}'
    || ch == '\U{205F}'
    || ch == '\U{3000}'
  }


  /** The white space `NumberStyles.AllowLeadingWhite`/`AllowTrailingWhite` admit. */
  predicate IsNumberWhite(ch: char) {
    ('\t' <= ch <= '\r') || ch == ' '
  }

  /** The two kinds of white space stripped from the ends of text: by `Trim` and by `int.TryParse`. */
  datatype Blank = WhiteSpace | NumberWhite

  predicate IsBlank(p: Blank, ch: char) {
    match p
    case WhiteSpace => IsWhiteSpace(ch)
    case NumberWhite => IsNumberWhite(ch)
  }

  /** Every character of `s` is a blank of kind `p`. */
  predicate All(s: string, p: Blank) {
    forall i :: 0 <= i < |s| ==> IsBlank(p, s[i])
  }

  /** Scanning forward from index `i`: the first index at or after `i` that does not hold a blank. */
  function SkipLeading(s: string, p: Blank, i: nat): (k: nat)
    requires i <= |s|
    ensures i <= k <= |s|
    decreases |s| - i
  {
    if i < |s| && IsBlank(p, s[i]) then SkipLeading(s, p, i + 1) else i
  }

  /** SkipLeading passes only blanks and stops at the first non-blank. */
  lemma {:induction false} SkipLeadingSpec(s: string, p: Blank, i: nat)
    requires i <= |s|
    ensures var k := SkipLeading(s, p, i);
            (forall m :: i <= m < k ==> IsBlank(p, s[m])) && (k < |s| ==> !IsBlank(p, s[k]))
    decreases |s| - i
  {
    if i < |s| && IsBlank(p, s[i]) {
      SkipLeadingSpec(s, p, i + 1);
    }
  }

  /** Any index that only blanks precede from `i`, and that holds no blank, is where SkipLeading stops. */
  lemma {:induction false} SkipLeadingStops(s: string, p: Blank, i: nat, k: nat)
    requires i <= k <= |s|
    requires forall m :: i <= m < k ==> IsBlank(p, s[m])
    requires k < |s| ==> !IsBlank(p, s[k])
    ensures SkipLeading(s, p, i) == k
    decreases k - i
  {
    if i < k {
      SkipLeadingStops(s, p, i + 1, k);
    }
  }

  /**
   * Scanning backward from the end `j`, not below `lo`: the end of `s[lo..j]`
   * once the blanks at its end are cut off.
   */
  function SkipTrailing(s: string, p: Blank, lo: nat, j: nat): (k: nat)
    requires lo <= j <= |s|
    ensures lo <= k <= j
    decreases j
  {
    if j > lo && IsBlank(p, s[j - 1]) then SkipTrailing(s, p, lo, j - 1) else j
  }

  /** SkipTrailing passes only blanks and stops after the last non-blank. */
  lemma {:induction false} SkipTrailingSpec(s: string, p: Blank, lo: nat, j: nat)
    requires lo <= j <= |s|
    ensures var k := SkipTrailing(s, p, lo, j);
            (forall m :: k <= m < j ==> IsBlank(p, s[m])) && (k > lo ==> !IsBlank(p, s[k - 1]))
    decreases j
  {
    if j > lo && IsBlank(p, s[j - 1]) {
      SkipTrailingSpec(s, p, lo, j - 1);
    }
  }

  /** Any end that only blanks follow up to `j`, and that ends on a non-blank or at `lo`, is where SkipTrailing stops. */
  lemma {:induction false} SkipTrailingStops(s: string, p: Blank, lo: nat, j: nat, k: nat)
    requires lo <= k <= j <= |s|
    requires forall m :: k <= m < j ==> IsBlank(p, s[m])
    requires k > lo ==> !IsBlank(p, s[k - 1])
    ensures SkipTrailing(s, p, lo, j) == k
    decreases j
  {
    if k < j {
      SkipTrailingStops(s, p, lo, j - 1, k);
    }
  }

  /** Where the text Strip keeps starts in `s`. */
  function StripStart(s: string, p: Blank): (a: nat)
    ensures a <= |s|
  {
    SkipLeading(s, p, 0)
  }

  /** Where the text Strip keeps ends in `s`. */
  function StripEnd(s: string, p: Blank): (e: nat)
    ensures StripStart(s, p) <= e <= |s|
  {
    SkipTrailing(s, p, StripStart(s, p), |s|)
  }

  /** `s` without the blanks of kind `p` at both of its ends. */
  function Strip(s: string, p: Blank): (r: string)
    ensures |r| <= |s|
  {
    s[StripStart(s, p)..StripEnd(s, p)]
  }

  /** What Strip leaves neither starts nor ends with a blank. */
  lemma StripEnds(s: string, p: Blank)
    ensures var r := Strip(s, p);
            r == "" || (!IsBlank(p, r[0]) && !IsBlank(p, r[|r| - 1]))
  {
    var a := StripStart(s, p);
    var e := StripEnd(s, p);
    SkipLeadingSpec(s, p, 0);
    SkipTrailingSpec(s, p, a, |s|);
    if a < e {
      assert Strip(s, p)[0] == s[a];
      assert Strip(s, p)[e - a - 1] == s[e - 1];
    }
  }

  /**
   * Strip keeps the middle of `s`: what it removed in front of the result and
   * behind it are blanks of kind `p`, and nothing else is removed.
   */
  lemma StripIsInfix(s: string, p: Blank)
    ensures var a := StripStart(s, p);
            var r := Strip(s, p);
            && a + |r| <= |s|
            && r == s[a..a + |r|]
            && (forall i :: 0 <= i < a ==> IsBlank(p, s[i]))
            && (forall i :: a + |r| <= i < |s| ==> IsBlank(p, s[i]))
  {
    SkipLeadingSpec(s, p, 0);
    SkipTrailingSpec(s, p, StripStart(s, p), |s|);
  }

  /** `String.Trim()`: strip white space at both ends. */
  function Trim(s: string): (r: string)
    ensures |r| <= |s|
  {
    Strip(s, WhiteSpace)
  }

  /** What Trim leaves neither starts nor ends with white space. */
  lemma TrimEnds(s: string)
    ensures var r := Trim(s);
            r == "" || (!IsWhiteSpace(r[0]) && !IsWhiteSpace(r[|r| - 1]))
  {
    StripEnds(s, WhiteSpace);
  }

  /** Trim removes white space at the two ends of `s` and nothing else. */
  lemma TrimIsInfix(s: string)
    ensures var a := StripStart(s, WhiteSpace);
            var r := Trim(s);
            && a + |r| <= |s|
            && r == s[a..a + |r|]
            && (forall i :: 0 <= i < a ==> IsWhiteSpace(s[i]))
            && (forall i :: a + |r| <= i < |s| ==> IsWhiteSpace(s[i]))
  {
    StripIsInfix(s, WhiteSpace);
  }

  /**
   * The converse of Strip's contract: stripping a core whose ends are not
   * blanks, padded on both sides by blanks, gives back the core.
   */
  lemma StripOfPadded(pre: string, core: string, post: string, p: Blank)
    requires All(pre, p) && All(post, p)
    requires core == "" || (!IsBlank(p, core[0]) && !IsBlank(p, core[|core| - 1]))
    ensures Strip(pre + core + post, p) == core
  {
    var s := pre + core + post;
    assert forall m :: 0 <= m < |pre| ==> s[m] == pre[m];
    assert forall m :: |pre| + |core| <= m < |s| ==> s[m] == post[m - |pre| - |core|];
    if core == "" {
      StripOfBlanks(s, |pre|, p);
    } else {
      assert s[|pre|] == core[0];
      assert s[|pre| + |core| - 1] == core[|core| - 1];
      StripAround(s, |pre|, |pre| + |core|, p);
      assert s[|pre|..|pre| + |core|] == core;
    }
  }

  /** A string of blanks strips to nothing. */
  lemma StripOfBlanks(s: string, k: nat, p: Blank)
    requires k <= |s|
    requires forall m :: 0 <= m < k ==> IsBlank(p, s[m])
    requires forall m :: k <= m < |s| ==> IsBlank(p, s[m])
    ensures Strip(s, p) == ""
  {
    SkipLeadingStops(s, p, 0, |s|);
    SkipTrailingStops(s, p, |s|, |s|, |s|);
  }

  /** Blanks before `a`, a non-blank at `a` and at `e - 1`, blanks from `e` on: Strip keeps `s[a..e]`. */
  lemma StripAround(s: string, a: nat, e: nat, p: Blank)
    requires a < e <= |s|
    requires forall m :: 0 <= m < a ==> IsBlank(p, s[m])
    requires !IsBlank(p, s[a]) && !IsBlank(p, s[e - 1])
    requires forall m :: e <= m < |s| ==> IsBlank(p, s[m])
    ensures Strip(s, p) == s[a..e]
  {
    SkipLeadingStops(s, p, 0, a);
    SkipTrailingStops(s, p, a, |s|, e);
  }

  /**
   * The converse of Trim's contract: trimming a core whose ends are not
   * white space, padded on both sides by white space, gives back the core.
   */
  lemma TrimOfPadded(pre: string, core: string, post: string)
    requires All(pre, WhiteSpace) && All(post, WhiteSpace)
    requires core == "" || (!IsWhiteSpace(core[0]) && !IsWhiteSpace(core[|core| - 1]))
    ensures Trim(pre + core + post) == core
  {
    StripOfPadded(pre, core, post, WhiteSpace);
  }

  /** Trimming twice is trimming once. */
  lemma TrimIdempotent(s: string)
    ensures Trim(Trim(s)) == Trim(s)
  {
    var r := Trim(s);
    TrimEnds(s);
    TrimOfPadded("", r, "");
    assert "" + r + "" == r;
  }

  // ---------------------------------------------------------------------
  // Splitting on '\n', keeping empty entries

  /** `s` does not contain `ch`. */
  predicate Lacks(s: string, ch: char) {
    forall i :: 0 <= i < |s| ==> s[i] != ch
  }

  /** Index of the first `ch` in `s`, or `|s|` when there is none. */
  function IndexOf(s: string, ch: char): (k: nat)
    ensures k <= |s|
    ensures forall i :: 0 <= i < k ==> s[i] != ch
    ensures k < |s| ==> s[k] == ch
  {
    if s == "" then 0
    else if s[0] == ch then 0
    else 1 + IndexOf(s[1..], ch)
  }

  /** The pieces of `s` between line feeds, empty ones kept: always at least one line. */
  function SplitLines(s: string): (lines: seq<string>)
    ensures |lines| >= 1
    ensures forall i :: 0 <= i < |lines| ==> Lacks(lines[i], '\n')
    decreases |s|
  {
    var k := IndexOf(s, '\n');
    if k == |s| then [s] else [s[..k]] + SplitLines(s[k + 1..])
  }

  /** The inverse of SplitLines: the lines put back together with '\n' between them. */
  function JoinLines(lines: seq<string>): string {
    if |lines| <= 1 then (if lines == [] then "" else lines[0])
    else lines[0] + "\n" + JoinLines(lines[1..])
  }

  lemma {:induction false} JoinSplitLines(s: string)
    ensures JoinLines(SplitLines(s)) == s
    decreases |s|
  {
    var k := IndexOf(s, '\n');
    if k < |s| {
      JoinSplitLines(s[k + 1..]);
      CutAt(s, k);
    }
  }

  /** `s` is what lies before index `k`, the character at `k`, and what lies after it. */
  lemma CutAt(s: string, k: nat)
    requires k < |s|
    ensures s == s[..k] + [s[k]] + s[k + 1..]
  {
  }

  lemma {:induction false} IndexOfPrefix(a: string, b: string, ch: char)
    requires Lacks(a, ch)
    ensures IndexOf(a + [ch] + b, ch) == |a|
    decreases |a|
  {
    if a != [] {
      assert (a + [ch] + b)[1..] == a[1..] + [ch] + b;
      IndexOfPrefix(a[1..], b, ch);
    }
  }

  lemma {:induction false} IndexOfAbsent(a: string, ch: char)
    requires Lacks(a, ch)
    ensures IndexOf(a, ch) == |a|
    decreases |a|
  {
    if a != [] {
      IndexOfAbsent(a[1..], ch);
    }
  }

  lemma {:induction false} SplitJoinLines(lines: seq<string>)
    requires |lines| >= 1
    requires forall i :: 0 <= i < |lines| ==> Lacks(lines[i], '\n')
    ensures SplitLines(JoinLines(lines)) == lines
    decreases |lines|
  {
    if |lines| == 1 {
      IndexOfAbsent(lines[0], '\n');
    } else {
      SplitLinesCons(lines[0], JoinLines(lines[1..]));
      SplitJoinLines(lines[1..]);
      assert lines == [lines[0]] + lines[1..];
    }
  }

  /** A line without '\n', then '\n': the first line of the split. */
  lemma SplitLinesCons(a: string, rest: string)
    requires Lacks(a, '\n')
    ensures SplitLines(a + "\n" + rest) == [a] + SplitLines(rest)
  {
    var s := a + "\n" + rest;
    IndexOfPrefix(a, rest, '\n');
    assert s[..|a|] == a;
    assert s[|a| + 1..] == rest;
  }

  lemma {:induction false} JoinLinesAppend(xs: seq<string>, ys: seq<string>)
    requires |xs| >= 1 && |ys| >= 1
    ensures JoinLines(xs + ys) == JoinLines(xs) + "\n" + JoinLines(ys)
    decreases |xs|
  {
    if |xs| == 1 {
      assert (xs + ys)[1..] == ys;
    } else {
      assert (xs + ys)[1..] == xs[1..] + ys;
      JoinLinesAppend(xs[1..], ys);
    }
  }

  /** Splitting a text joined at a '\n' gives the lines of both halves, in order. */
  lemma SplitLinesConcat(a: string, b: string)
    ensures SplitLines(a + "\n" + b) == SplitLines(a) + SplitLines(b)
  {
    var xs, ys := SplitLines(a), SplitLines(b);
    JoinSplitLines(a);
    JoinSplitLines(b);
    JoinLinesAppend(xs, ys);
    assert forall i :: 0 <= i < |xs + ys| ==> Lacks((xs + ys)[i], '\n') by {
      forall i | 0 <= i < |xs + ys| ensures Lacks((xs + ys)[i], '\n') {
        if i < |xs| { assert (xs + ys)[i] == xs[i]; } else { assert (xs + ys)[i] == ys[i - |xs|]; }
      }
    }
    SplitJoinLines(xs + ys);
  }

  // ---------------------------------------------------------------------
  // Splitting on tab and space, dropping empty entries

  /** The separators the frame reader splits a line on. */
  predicate IsSeparator(ch: char) {
    ch == '\t' || ch == ' '
  }

  /** A token: non-empty and free of separators. */
  predicate IsToken(t: string) {
    t != "" && forall i :: 0 <= i < |t| ==> !IsSeparator(t[i])
  }

  /** Length of the run of non-separators at the start of `s`. */
  function WordLength(s: string): (k: nat)
    ensures k <= |s|
  {
    if s == "" || IsSeparator(s[0]) then 0 else 1 + WordLength(s[1..])
  }

  /** The pieces of `s` between tabs and spaces, in order, with the empty pieces dropped. */
  function Tokens(s: string): (ts: seq<string>)
    ensures |ts| <= |s|
    decreases |s|
  {
    if s == "" then []
    else if IsSeparator(s[0]) then Tokens(s[1..])
    else
      var k := WordLength(s);
      [s[..k]] + Tokens(s[k..])
  }

  /** WordLength covers the whole run of non-separators. */
  lemma {:induction false} WordLengthSpec(s: string)
    ensures var k := WordLength(s);
            (forall i :: 0 <= i < k ==> !IsSeparator(s[i])) && (k < |s| ==> IsSeparator(s[k]))
    decreases |s|
  {
    if s != "" && !IsSeparator(s[0]) {
      WordLengthSpec(s[1..]);
      var k := WordLength(s);
      assert forall i :: 1 <= i < k ==> s[i] == s[1..][i - 1];
    }
  }

  /** Every piece Tokens gives is a token. */
  lemma {:induction false} TokensAreTokens(s: string)
    ensures forall i :: 0 <= i < |Tokens(s)| ==> IsToken(Tokens(s)[i])
    decreases |s|
  {
    if s == "" {
    } else if IsSeparator(s[0]) {
      TokensAreTokens(s[1..]);
    } else {
      var k := WordLength(s);
      WordLengthSpec(s);
      TokensAreTokens(s[k..]);
      var ts := Tokens(s);
      assert ts == [s[..k]] + Tokens(s[k..]);
      assert IsToken(s[..k]) by {
        assert k > 0;
      }
      forall i | 0 <= i < |ts| ensures IsToken(ts[i]) {
        if i > 0 {
          assert ts[i] == Tokens(s[k..])[i - 1];
        }
      }
    }
  }

  /** The tokens put back together with one separator `sep` between them. */
  function JoinTokens(ts: seq<string>, sep: char): string {
    if |ts| <= 1 then (if ts == [] then "" else ts[0])
    else ts[0] + [sep] + JoinTokens(ts[1..], sep)
  }

  lemma {:induction false} WordLengthOfToken(t: string, rest: string)
    requires IsToken(t)
    requires rest == "" || IsSeparator(rest[0])
    ensures WordLength(t + rest) == |t|
    decreases |t|
  {
    if |t| > 1 {
      assert (t + rest)[1..] == t[1..] + rest;
      WordLengthOfToken(t[1..], rest);
    } else {
      assert (t + rest)[1..] == rest;
    }
  }

  /** Splitting tokens joined by single separators gives back exactly those tokens. */
  lemma {:induction false} TokensOfJoin(ts: seq<string>, sep: char)
    requires IsSeparator(sep)
    requires forall i :: 0 <= i < |ts| ==> IsToken(ts[i])
    ensures Tokens(JoinTokens(ts, sep)) == ts
    decreases |ts|
  {
    if |ts| == 1 {
      WordLengthOfToken(ts[0], "");
      assert ts[0] + "" == ts[0];
      assert ts[0][|ts[0]|..] == "";
    } else if |ts| > 1 {
      var rest := JoinTokens(ts[1..], sep);
      var s := ts[0] + [sep] + rest;
      assert s == ts[0] + ([sep] + rest);
      WordLengthOfToken(ts[0], [sep] + rest);
      assert s[..|ts[0]|] == ts[0];
      assert s[|ts[0]|..] == [sep] + rest;
      assert ([sep] + rest)[1..] == rest;
      TokensOfJoin(ts[1..], sep);
      assert ts == [ts[0]] + ts[1..];
    }
  }

  /** When a separator or nothing follows `a`, the first run of non-separators of `a + b` lies within `a`. */
  lemma {:induction false} WordLengthConcat(a: string, b: string)
    requires b == "" || IsSeparator(b[0])
    ensures WordLength(a + b) == WordLength(a)
    decreases |a|
  {
    if a == "" {
      assert a + b == b;
    } else if !IsSeparator(a[0]) {
      assert (a + b)[1..] == a[1..] + b;
      WordLengthConcat(a[1..], b);
    }
  }

  /** Text followed by a separator, or by nothing, splits into its own tokens and then those of what follows. */
  lemma {:induction false} TokensConcat(a: string, b: string)
    requires b == "" || IsSeparator(b[0])
    ensures Tokens(a + b) == Tokens(a) + Tokens(b)
    decreases |a|
  {
    if a == "" {
      assert a + b == b;
    } else if IsSeparator(a[0]) {
      assert (a + b)[1..] == a[1..] + b;
      TokensConcat(a[1..], b);
    } else {
      var k := WordLength(a);
      WordLengthConcat(a, b);
      assert (a + b)[..k] == a[..k];
      assert (a + b)[k..] == a[k..] + b;
      TokensConcat(a[k..], b);
    }
  }

  /**
   * Any separator splits the text: the tokens on its left, then those on its
   * right. Runs of separators, and separators at either end, so yield no
   * empty token.
   */
  lemma TokensAtSeparator(a: string, sep: char, b: string)
    requires IsSeparator(sep)
    ensures Tokens(a + [sep] + b) == Tokens(a) + Tokens(b)
  {
    assert a + [sep] + b == a + ([sep] + b);
    TokensConcat(a, [sep] + b);
    assert ([sep] + b)[1..] == b;
  }

  /** Text made only of separators has no token. */
  lemma {:induction false} TokensOfSeparators(s: string)
    requires forall i :: 0 <= i < |s| ==> IsSeparator(s[i])
    ensures Tokens(s) == []
    decreases |s|
  {
    if s != "" {
      TokensOfSeparators(s[1..]);
    }
  }

  /** A token on its own splits into exactly itself. */
  lemma TokensOfToken(t: string)
    requires IsToken(t)
    ensures Tokens(t) == [t]
  {
    WordLengthOfToken(t, "");
    assert t + "" == t;
    assert t[|t|..] == "";
  }

  /** A join of tokens starts and ends with a token character, so Trim leaves it alone. */
  lemma {:induction false} JoinTokensEnds(ts: seq<string>, sep: char)
    requires |ts| >= 1 && IsSeparator(sep)
    requires forall i :: 0 <= i < |ts| ==> IsToken(ts[i])
    ensures var s, first, last := JoinTokens(ts, sep), ts[0], ts[|ts| - 1];
            IsToken(first) && IsToken(last) && s != "" && s[0] == first[0] && s[|s| - 1] == last[|last| - 1]
    decreases |ts|
  {
    if |ts| > 1 {
      JoinTokensEnds(ts[1..], sep);
    }
  }
}
