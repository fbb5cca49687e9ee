/**
 * `ref_pattern = re.compile(r'\b[a-zA-Z_][a-zA-Z0-9_.]*\b')` and its `findall`, read over ASCII
 * text. A match starts at a letter or `_` that follows no word character, runs greedily over
 * `[a-zA-Z0-9_.]`, and backtracks over trailing dots to the last word character, where the
 * closing `\b` holds. The scan resumes where a match ends, or one character on after a miss.
 */
module Tokenizer {
  import opened Elements

  /** `\w` on ASCII text. */
  predicate IsWordChar(c: char) {
    ('a' <= c <= 'z') || ('A' <= c <= 'Z') || ('0' <= c <= '9') || c == '_'
  }

  /** `[a-zA-Z_]` */
  predicate IsStartChar(c: char) {
    ('a' <= c <= 'z') || ('A' <= c <= 'Z') || c == '_'
  }

  /** `[a-zA-Z0-9_.]` */
  predicate IsRefChar(c: char) {
    IsWordChar(c) || c == '.'
  }

  /** What every match of the pattern looks like. */
  predicate IsRefToken(t: string) {
    && |t| > 0
    && IsStartChar(t[0])
    && (forall k :: 0 <= k < |t| ==> IsRefChar(t[k]))
    && IsWordChar(t[|t| - 1])
  }

  /** End of the greedy run of `[a-zA-Z0-9_.]` that starts at `i`. */
  function RunEnd(s: string, i: nat): (j: nat)
    requires i <= |s|
    ensures i <= j <= |s|
    ensures forall k :: i <= k < j ==> IsRefChar(s[k])
    ensures j == |s| || !IsRefChar(s[j])
    decreases |s| - i
  {
    if i == |s| || !IsRefChar(s[i]) then i else RunEnd(s, i + 1)
  }

  /** Backtracking to the closing `\b`: just after the last word character before `m`. */
  function WordEnd(s: string, p: nat, m: nat): (q: nat)
    requires p < m <= |s| && IsWordChar(s[p])
    ensures p < q <= m && IsWordChar(s[q - 1])
    ensures forall k :: q <= k < m ==> !IsWordChar(s[k])
    decreases m
  {
    if IsWordChar(s[m - 1]) then m else WordEnd(s, p, m - 1)
  }

  /** `\b` in front of a word character at `p`. */
  predicate BoundaryBefore(s: string, p: nat)
    requires p <= |s|
  {
    p == 0 || !IsWordChar(s[p - 1])
  }

  /** The matches `findall` reports when scanning `s` from position `p`. */
  function TokensFrom(s: string, p: nat): (r: seq<string>)
    requires p <= |s|
    ensures forall i :: 0 <= i < |r| ==> IsRefToken(r[i])
    decreases |s| - p
  {
    if p == |s| then []
    else if IsStartChar(s[p]) && BoundaryBefore(s, p) then
      var q := WordEnd(s, p, RunEnd(s, p + 1));
      assert IsRefToken(s[p..q]);
      [s[p..q]] + TokensFrom(s, q)
    else TokensFrom(s, p + 1)
  }

  /**
   * `ref_pattern.findall(s)`. No match is a numeric literal, so the `[0-9.]+` filter that the
   * extraction applies to every match never removes one.
   */
  function Tokens(s: string): (r: seq<string>)
    ensures forall i :: 0 <= i < |r| ==> IsRefToken(r[i]) && !AllDigitsDots(r[i])
  {
    TokensFrom(s, 0)
  }

  /** A string that is itself one reference (say a variable name) is its own single match. */
  lemma WholeReference(s: string)
    requires IsRefToken(s)
    ensures Tokens(s) == [s]
  {
    RunToEnd(s, 1);
    assert WordEnd(s, 0, |s|) == |s|;
    assert s[0..|s|] == s;
    assert TokensFrom(s, |s|) == [];
    assert TokensFrom(s, 0) == [s[0..|s|]] + TokensFrom(s, |s|);
  }

  lemma {:induction false} RunToEnd(s: string, i: nat)
    requires i <= |s|
    requires forall k :: i <= k < |s| ==> IsRefChar(s[k])
    ensures RunEnd(s, i) == |s|
    decreases |s| - i
  {
    if i < |s| {
      RunToEnd(s, i + 1);
    }
  }

  /** The run of reference characters from `i` ends at the first position that is not one. */
  lemma {:induction false} RunEndAt(s: string, i: nat, j: nat)
    requires i <= j <= |s|
    requires forall k :: i <= k < j ==> IsRefChar(s[k])
    requires j == |s| || !IsRefChar(s[j])
    ensures RunEnd(s, i) == j
    decreases j - i
  {
    if i < j {
      RunEndAt(s, i + 1, j);
    }
  }

  /** The run from `i` stops no later than a character that is not a reference character. */
  lemma {:induction false} RunEndBefore(s: string, i: nat, x: nat)
    requires i <= x < |s| && !IsRefChar(s[x])
    ensures RunEnd(s, i) <= x
    decreases x - i
  {
    if i < x && IsRefChar(s[i]) {
      RunEndBefore(s, i + 1, x);
    }
  }

  /** `t` is the piece `s[i..j]` of `s` at or after `p`, with a word boundary on both sides. */
  predicate OccursDelimited(s: string, p: nat, t: string) {
    exists i, j :: p <= i < j <= |s| && s[i..j] == t && (i == 0 || !IsWordChar(s[i - 1])) && (j == |s| || !IsWordChar(s[j]))
  }

  /** Occurring after a later position implies occurring after an earlier one. */
  lemma OccursLater(s: string, p: nat, p': nat, t: string)
    requires p <= p' && OccursDelimited(s, p', t)
    ensures OccursDelimited(s, p, t)
  {
    var i, j :| p' <= i < j <= |s| && s[i..j] == t && (i == 0 || !IsWordChar(s[i - 1])) && (j == |s| || !IsWordChar(s[j]));
  }

  /** A match found at `p` ends where the closing `\b` holds. */
  lemma MatchEndsAtBoundary(s: string, p: nat)
    requires p < |s| && IsStartChar(s[p]) && BoundaryBefore(s, p)
    ensures OccursDelimited(s, p, s[p..WordEnd(s, p, RunEnd(s, p + 1))])
  {
    var m := RunEnd(s, p + 1);
    var q := WordEnd(s, p, m);
    if q < m {
      assert !IsWordChar(s[q]);
    }
    assert q == |s| || !IsWordChar(s[q]);
  }

  /** The match the scan reports at `p`, if one starts there. */
  function MatchAt(s: string, p: nat): seq<string>
    requires p < |s|
  {
    if IsStartChar(s[p]) && BoundaryBefore(s, p) then [s[p..WordEnd(s, p, RunEnd(s, p + 1))]] else []
  }

  /** Where the scan resumes after position `p`. */
  function NextPos(s: string, p: nat): (n: nat)
    requires p < |s|
    ensures p < n <= |s|
  {
    if IsStartChar(s[p]) && BoundaryBefore(s, p) then WordEnd(s, p, RunEnd(s, p + 1)) else p + 1
  }

  /** One step of the scan. */
  lemma ScanStep(s: string, p: nat)
    requires p < |s|
    ensures TokensFrom(s, p) == MatchAt(s, p) + TokensFrom(s, NextPos(s, p))
  {
    if !(IsStartChar(s[p]) && BoundaryBefore(s, p)) {
      SkipStep(s, p);
    }
  }

  /** Each match of a scan from `p` occurs delimited at or after `p`. */
  lemma {:induction false} TokenOccurs(s: string, p: nat, t: string)
    requires p <= |s| && t in TokensFrom(s, p)
    ensures OccursDelimited(s, p, t)
    decreases |s| - p
  {
    assert p < |s|;
    var here, n := MatchAt(s, p), NextPos(s, p);
    ScanStep(s, p);
    if t in here {
      MatchEndsAtBoundary(s, p);
    } else {
      TokenOccurs(s, n, t);
      OccursLater(s, p, n, t);
    }
  }

  /** Every match is a piece of the text, found at or after the scan position, with `\b` on both sides. */
  lemma TokensOccur(s: string, p: nat)
    requires p <= |s|
    ensures forall k :: 0 <= k < |TokensFrom(s, p)| ==> OccursDelimited(s, p, TokensFrom(s, p)[k])
  {
    forall k | 0 <= k < |TokensFrom(s, p)|
      ensures OccursDelimited(s, p, TokensFrom(s, p)[k])
    {
      TokenOccurs(s, p, TokensFrom(s, p)[k]);
    }
  }

  /** `s[i..j]` is a reference with a character on each side that cannot belong to one (or an end of the text). */
  predicate Delimited(s: string, i: nat, j: nat) {
    && i < j <= |s| && IsRefToken(s[i..j])
    && (i == 0 || !IsRefChar(s[i - 1]))
    && (j == |s| || !IsRefChar(s[j]))
  }

  /** A scan that reaches a delimited reference matches exactly it. */
  lemma FoundHere(s: string, i: nat, j: nat)
    requires Delimited(s, i, j)
    ensures TokensFrom(s, i) == [s[i..j]] + TokensFrom(s, j)
  {
    var t := s[i..j];
    assert s[i] == t[0] && s[j - 1] == t[|t| - 1];
    forall k | i + 1 <= k < j
      ensures IsRefChar(s[k])
    {
      assert s[k] == t[k - i];
    }
    RunEndAt(s, i + 1, j);
    MatchStep(s, i, j, j);
  }

  /** The scan does not jump over the start of a delimited reference. */
  lemma NextPosBefore(s: string, p: nat, i: nat, j: nat)
    requires p < i && Delimited(s, i, j)
    ensures NextPos(s, p) <= i
  {
    if IsStartChar(s[p]) && BoundaryBefore(s, p) {
      assert !IsRefChar(s[i - 1]);
      assert p != i - 1;
      RunEndBefore(s, p + 1, i - 1);
    }
  }

  /**
   * Every reference in the text that stands between characters that cannot belong to a
   * reference (or the ends of the text) is found by a scan that starts before it.
   */
  lemma {:induction false} DelimitedFound(s: string, p: nat, i: nat, j: nat)
    requires p <= i && Delimited(s, i, j)
    ensures s[i..j] in TokensFrom(s, p)
    decreases i - p
  {
    if p == i {
      FoundHere(s, i, j);
    } else {
      NextPosBefore(s, p, i, j);
      ScanStep(s, p);
      DelimitedFound(s, NextPos(s, p), i, j);
    }
  }

  /** A text with no letter and no `_` yields no match. */
  lemma {:induction false} NoStartNoTokens(s: string, p: nat)
    requires p <= |s|
    requires forall k :: p <= k < |s| ==> !IsStartChar(s[k])
    ensures TokensFrom(s, p) == []
    decreases |s| - p
  {
    if p < |s| {
      NoStartNoTokens(s, p + 1);
    }
  }

  /** One step of the scan over a position where no match starts. */
  lemma SkipStep(s: string, p: nat)
    requires p < |s| && !(IsStartChar(s[p]) && BoundaryBefore(s, p))
    ensures TokensFrom(s, p) == TokensFrom(s, p + 1)
  {
  }

  /** One step of the scan over a match `s[p..q]` whose run of reference characters ends at `m`. */
  lemma MatchStep(s: string, p: nat, m: nat, q: nat)
    requires p < |s| && IsStartChar(s[p]) && BoundaryBefore(s, p)
    requires RunEnd(s, p + 1) == m && WordEnd(s, p, m) == q
    ensures TokensFrom(s, p) == [s[p..q]] + TokensFrom(s, q)
  {
  }

  /** The backtracking end is the one position that meets `WordEnd`'s contract. */
  lemma WordEndAt(s: string, p: nat, m: nat, q: nat)
    requires p < q <= m <= |s| && IsWordChar(s[p]) && IsWordChar(s[q - 1])
    requires forall k :: q <= k < m ==> !IsWordChar(s[k])
    ensures WordEnd(s, p, m) == q
  {
  }

  /** A piece of a prefix is the same piece of the whole. */
  lemma PrefixSlice(s: string, n: nat, i: nat, j: nat)
    requires i <= j <= n <= |s|
    ensures s[..n][i..j] == s[i..j]
  {
  }

  /** `s` is `a` followed by a character that cannot belong to a reference, then anything. */
  predicate CutAfter(s: string, a: string) {
    |a| < |s| && s[..|a|] == a && !IsRefChar(s[|a|])
  }

  /** A run inside `a` ends at the same place in `s`: the cut stops it at the latest. */
  lemma RunEndPrefix(s: string, a: string, i: nat)
    requires CutAfter(s, a) && i <= |a|
    ensures RunEnd(s, i) == RunEnd(a, i)
  {
    var j := RunEnd(a, i);
    forall k | i <= k < j
      ensures IsRefChar(s[k])
    {
      assert s[k] == a[k];
    }
    if j < |a| {
      assert s[j] == a[j];
    }
    RunEndAt(s, i, j);
  }

  /** Backtracking inside `a` is the same in `s`. */
  lemma WordEndPrefix(s: string, a: string, p: nat, m: nat)
    requires CutAfter(s, a) && p < m <= |a| && IsWordChar(a[p])
    ensures WordEnd(s, p, m) == WordEnd(a, p, m)
  {
    var q := WordEnd(a, p, m);
    assert s[p] == a[p] && s[q - 1] == a[q - 1];
    forall k | q <= k < m
      ensures !IsWordChar(s[k])
    {
      assert s[k] == a[k];
    }
    WordEndAt(s, p, m, q);
  }

  /** A scan step inside `a` is the same step in `s`. */
  lemma PrefixStep(s: string, a: string, p: nat)
    requires CutAfter(s, a) && p < |a|
    ensures MatchAt(s, p) == MatchAt(a, p) && NextPos(s, p) == NextPos(a, p)
  {
    assert s[p] == a[p];
    if p > 0 {
      assert s[p - 1] == a[p - 1];
    }
    if IsStartChar(a[p]) && BoundaryBefore(a, p) {
      var m := RunEnd(a, p + 1);
      RunEndPrefix(s, a, p + 1);
      WordEndPrefix(s, a, p, m);
      var q := WordEnd(a, p, m);
      PrefixSlice(s, |a|, p, q);
    }
  }

  /** Scanning `s` through the cut finds the matches of `a`, then those after the cut. */
  lemma {:induction false} SplitScan(s: string, a: string, p: nat)
    requires CutAfter(s, a) && p <= |a|
    ensures TokensFrom(s, p) == TokensFrom(a, p) + TokensFrom(s, |a|)
    decreases |a| - p
  {
    if p < |a| {
      var n := NextPos(a, p);
      PrefixStep(s, a, p);
      ScanStep(s, p);
      ScanStep(a, p);
      SplitScan(s, a, n);
    }
  }

  /** The character `k` places after position `i` of `s`. */
  function CharAt(s: string, i: nat, k: nat): char
    requires i + k < |s|
  {
    s[i + k]
  }

  /** From `ps` in `s` and from `p` in `b` the two texts read the same, with the same `\b` in front. */
  predicate Agree(s: string, ps: nat, b: string, p: nat) {
    && ps <= |s| && p <= |b| && |s| - ps == |b| - p
    && (forall k :: 0 <= k < |b| - p ==> CharAt(s, ps, k) == CharAt(b, p, k))
    && BoundaryBefore(s, ps) == BoundaryBefore(b, p)
  }

  /** Agreeing texts have the same character at the same distance. */
  lemma AgreeChar(s: string, ps: nat, b: string, p: nat, k: nat)
    requires Agree(s, ps, b, p) && k < |b| - p
    ensures s[ps + k] == b[p + k]
  {
    assert CharAt(s, ps, k) == CharAt(b, p, k);
  }

  /** Texts that agree from some point on still agree further on. */
  lemma AgreeLater(s: string, ps: nat, qs: nat, b: string, p: nat, q: nat)
    requires Agree(s, ps, b, p) && p < q <= |b| && qs - ps == q - p
    ensures Agree(s, qs, b, q)
  {
    AgreeChar(s, ps, b, p, q - p - 1);
    forall k | 0 <= k < |b| - q
      ensures CharAt(s, qs, k) == CharAt(b, q, k)
    {
      AgreeChar(s, ps, b, p, q - p + k);
    }
  }

  /** Agreeing texts hold the same pieces. */
  lemma AgreeSlice(s: string, ps: nat, qs: nat, b: string, p: nat, q: nat)
    requires Agree(s, ps, b, p) && p <= q <= |b| && qs - ps == q - p
    ensures s[ps..qs] == b[p..q]
  {
    var u, v := s[ps..qs], b[p..q];
    forall k | 0 <= k < q - p
      ensures u[k] == v[k]
    {
      AgreeChar(s, ps, b, p, k);
    }
  }

  /** In agreeing texts, the run of reference characters after the first one has the same length. */
  lemma RunEndAgree(s: string, ps: nat, b: string, p: nat)
    requires Agree(s, ps, b, p) && p < |b|
    ensures RunEnd(s, ps + 1) - ps == RunEnd(b, p + 1) - p
  {
    var j: nat := RunEnd(b, p + 1) - p;
    forall k | ps + 1 <= k < ps + j
      ensures IsRefChar(s[k])
    {
      AgreeChar(s, ps, b, p, k - ps);
    }
    if p + j < |b| {
      AgreeChar(s, ps, b, p, j);
    }
    RunEndAt(s, ps + 1, ps + j);
  }

  /** In agreeing texts, backtracking to the closing `\b` gives back the same characters. */
  lemma WordEndAgree(s: string, ps: nat, ms: nat, b: string, p: nat, m: nat)
    requires Agree(s, ps, b, p) && p < m <= |b| && ms - ps == m - p && IsWordChar(b[p])
    ensures IsWordChar(s[ps]) && WordEnd(s, ps, ms) - ps == WordEnd(b, p, m) - p
  {
    AgreeChar(s, ps, b, p, 0);
    var z: nat := WordEnd(b, p, m) - p;
    AgreeChar(s, ps, b, p, z - 1);
    forall k | ps + z <= k < ms
      ensures !IsWordChar(s[k])
    {
      AgreeChar(s, ps, b, p, k - ps);
    }
    WordEndAt(s, ps, ms, ps + z);
  }

  /** A match in one of two agreeing texts is the same match in the other, and they agree after it. */
  lemma AgreeMatch(s: string, ps: nat, b: string, p: nat)
    requires Agree(s, ps, b, p) && p < |b| && IsStartChar(b[p]) && BoundaryBefore(b, p)
    ensures ps < |s| && MatchAt(s, ps) == MatchAt(b, p)
    ensures Agree(s, NextPos(s, ps), b, NextPos(b, p))
  {
    AgreeChar(s, ps, b, p, 0);
    var m, ms := RunEnd(b, p + 1), RunEnd(s, ps + 1);
    RunEndAgree(s, ps, b, p);
    WordEndAgree(s, ps, ms, b, p, m);
    var q, qs := WordEnd(b, p, m), WordEnd(s, ps, ms);
    AgreeSlice(s, ps, qs, b, p, q);
    AgreeLater(s, ps, qs, b, p, q);
    assert MatchAt(s, ps) == [s[ps..qs]] && NextPos(s, ps) == qs;
  }

  /** Where no match starts in one of two agreeing texts, none starts in the other. */
  lemma AgreeSkip(s: string, ps: nat, b: string, p: nat)
    requires Agree(s, ps, b, p) && p < |b| && !(IsStartChar(b[p]) && BoundaryBefore(b, p))
    ensures ps < |s| && MatchAt(s, ps) == MatchAt(b, p) == []
    ensures Agree(s, NextPos(s, ps), b, NextPos(b, p))
  {
    AgreeChar(s, ps, b, p, 0);
    AgreeLater(s, ps, ps + 1, b, p, p + 1);
  }

  /** Agreeing texts take the same scan step, and agree again where the scan resumes. */
  lemma AgreeStep(s: string, ps: nat, b: string, p: nat)
    requires Agree(s, ps, b, p) && p < |b|
    ensures ps < |s| && MatchAt(s, ps) == MatchAt(b, p)
    ensures Agree(s, NextPos(s, ps), b, NextPos(b, p))
  {
    if IsStartChar(b[p]) && BoundaryBefore(b, p) {
      AgreeMatch(s, ps, b, p);
    } else {
      AgreeSkip(s, ps, b, p);
    }
  }

  /** Scans of agreeing texts find the same matches. */
  lemma {:induction false} AgreeScan(s: string, ps: nat, b: string, p: nat)
    requires Agree(s, ps, b, p)
    ensures TokensFrom(s, ps) == TokensFrom(b, p)
    decreases |b| - p
  {
    if p < |b| {
      AgreeStep(s, ps, b, p);
      ScanStep(s, ps);
      ScanStep(b, p);
      AgreeScan(s, NextPos(s, ps), b, NextPos(b, p));
    }
  }

  /**
   * A character that cannot belong to a reference splits the matches: those of the text before
   * it, in order, then those of the text after it. Nothing is dropped, merged or reordered.
   */
  lemma TokensSplit(a: string, c: char, b: string)
    requires !IsRefChar(c)
    ensures Tokens(a + [c] + b) == Tokens(a) + Tokens(b)
  {
    var s := a + [c] + b;
    var d := |a| + 1;
    assert s[..|a|] == a && s[|a|] == c;
    SplitScan(s, a, 0);
    SkipStep(s, |a|);
    forall k | 0 <= k < |b|
      ensures CharAt(s, d, k) == CharAt(b, 0, k)
    {
    }
    AgreeScan(s, d, b, 0);
  }

  /** A reference written twice, with an operator between, is matched twice. */
  lemma RepeatedReference(t: string, c: char)
    requires IsRefToken(t) && !IsRefChar(c)
    ensures Tokens(t + [c] + t) == [t, t]
  {
    TokensSplit(t, c, t);
    WholeReference(t);
  }

  /** `A*A`: both occurrences of `A` are reported. */
  lemma SquareTokens()
    ensures Tokens("A*A") == ["A", "A"]
  {
    assert IsRefToken("A");
    RepeatedReference("A", '*');
    assert "A" + ['*'] + "A" == "A*A";
  }

  const Formula: string := "sin(A)*2"

  /**
   * A formula: the function name `sin` is a match like any other identifier, and the
   * literal `2` is not one.
   */
  lemma FormulaTokens()
    ensures Tokens(Formula) == ["sin", "A"]
  {
    var s := Formula;
    NoStartNoTokens(s, 5);
    assert RunEnd(s, 5) == 5;
    MatchStep(s, 4, 5, 5);
    SkipStep(s, 3);
    assert RunEnd(s, 1) == 3 by { assert RunEnd(s, 3) == 3; assert RunEnd(s, 2) == 3; }
    MatchStep(s, 0, 3, 3);
    assert s[0..3] == "sin" && s[4..5] == "A";
  }

  /** Trailing dots are not part of a match, and a letter after a digit and a dot starts one. */
  lemma DotTokens()
    ensures Tokens("a.b..") == ["a.b"]
    ensures Tokens("1.x") == ["x"]
  {
    var s := "a.b..";
    assert RunEnd(s, 1) == 5;
    assert WordEnd(s, 0, 5) == 3;
    assert s[0..3] == "a.b";
    NoStartNoTokens(s, 3);
    var t := "1.x";
    assert TokensFrom(t, 3) == [];
    assert TokensFrom(t, 2) == ["x"] by { assert RunEnd(t, 3) == 3; assert t[2..3] == "x"; }
  }
}
