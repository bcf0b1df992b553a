/**
 * The Python string built-ins the bot relies on, over `seq<char>`:
 * `lower`, `in`, `startswith`, `endswith`, `replace`, `strip`, `split`,
 * `split(maxsplit=1)` and `str(int)`.
 *
 * Case mapping and whitespace are those of ASCII: Python's own tables for
 * the rest of Unicode are not modelled.
 */
module Strings {

  /** Python's ASCII whitespace: tab, newline, vertical tab, form feed,
      carriage return, the four separators 0x1C-0x1F, and space. */
  predicate IsSpace(c: char) {
    c == ' ' || ('\t' <= c <= '\r') || ('\U{1C}' <= c <= '\U{1F}')
  }

  function ToLower(c: char): char {
    if 'A' <= c <= 'Z' then (c as int + 32) as char else c
  }

  /** `s.lower()`, on ASCII letters. */
  function Lower(s: string): (r: string)
    ensures |r| == |s|
    ensures forall i :: 0 <= i < |s| ==> r[i] == ToLower(s[i])
    ensures forall i :: 0 <= i < |s| ==> !('A' <= r[i] <= 'Z')
    ensures forall i :: 0 <= i < |s| && !('A' <= s[i] <= 'Z') ==> r[i] == s[i]
  {
    seq(|s|, i requires 0 <= i < |s| => ToLower(s[i]))
  }

  predicate StartsWith(s: string, prefix: string) {
    |prefix| <= |s| && s[..|prefix|] == prefix
  }

  predicate EndsWith(s: string, suffix: string) {
    |suffix| <= |s| && s[|s| - |suffix|..] == suffix
  }

  predicate OccursAt(s: string, p: string, i: int) {
    0 <= i && i + |p| <= |s| && s[i..i + |p|] == p
  }

  /** `p in s` for strings: `p` is a substring of `s`. */
  predicate Contains(s: string, p: string) {
    exists i :: 0 <= i <= |s| - |p| && OccursAt(s, p, i)
  }

  /** `p in s` is insensitive to ASCII case once both sides are lowered. */
  lemma ContainsLower(s: string, p: string)
    requires Contains(s, p)
    ensures Contains(Lower(s), Lower(p))
  {
    var i :| 0 <= i <= |s| - |p| && OccursAt(s, p, i);
    assert Lower(s)[i..i + |p|] == Lower(p);
    assert OccursAt(Lower(s), Lower(p), i);
  }

  lemma ContainsTail(s: string, p: string)
    requires |s| > 0 && Contains(s[1..], p)
    ensures Contains(s, p)
  {
    var i :| 0 <= i <= |s[1..]| - |p| && OccursAt(s[1..], p, i);
    assert s[i + 1..i + 1 + |p|] == s[1..][i..i + |p|];
    assert OccursAt(s, p, i + 1);
  }

  /** Every character of a substring occurs in the string. */
  lemma ContainsChar(s: string, p: string, k: int)
    requires Contains(s, p) && 0 <= k < |p|
    ensures p[k] in s
  {
    var i :| 0 <= i <= |s| - |p| && OccursAt(s, p, i);
    assert s[i + k] == s[i..i + |p|][k];
  }

  /** Dropping a first character that does not start an occurrence keeps
      every occurrence. */
  lemma ContainsAfterFirst(s: string, p: string)
    requires |s| > 0 && !OccursAt(s, p, 0)
    ensures Contains(s, p) <==> Contains(s[1..], p)
  {
    if Contains(s[1..], p) {
      ContainsTail(s, p);
    }
    if Contains(s, p) {
      var i :| 0 <= i <= |s| - |p| && OccursAt(s, p, i);
      assert s[1..][i - 1..i - 1 + |p|] == s[i..i + |p|];
      assert OccursAt(s[1..], p, i - 1);
    }
  }

  /** `s.replace(p, r)`: every occurrence of `p`, scanning left to right
      without overlap, replaced by `r`. A string without the pattern is left
      as it is; `ReplaceAtFirst` gives the result for one with the pattern. */
  function Replace(s: string, p: string, r: string): (result: string)
    requires |p| > 0
    ensures !Contains(s, p) ==> result == s
    decreases |s|
  {
    if |s| < |p| then s
    else if StartsWith(s, p) then
      assert s[0..|p|] == s[..|p|] && OccursAt(s, p, 0);
      r + Replace(s[|p|..], p, r)
    else
      assert s[0..|p|] == s[..|p|];
      ContainsAfterFirst(s, p);
      var rest := Replace(s[1..], p, r);
      assert ([s[0]] + rest)[1..] == rest;
      [s[0]] + rest
  }

  /** A string with the pattern holds the replacement afterwards. */
  lemma {:induction false} ReplaceInserts(s: string, p: string, r: string)
    requires |p| > 0 && Contains(s, p)
    ensures Contains(Replace(s, p, r), r)
    decreases |s|
  {
    assert s[0..|p|] == s[..|p|];
    if OccursAt(s, p, 0) {
      ReplaceHit(s, p, r);
      var result := Replace(s, p, r);
      assert result[0..|r|] == r;
      assert OccursAt(result, r, 0);
    } else {
      ReplaceStep(s, p, r);
      ContainsAfterFirst(s, p);
      ReplaceInserts(s[1..], p, r);
      var rest := Replace(s[1..], p, r);
      assert ([s[0]] + rest)[1..] == rest;
      ContainsTail([s[0]] + rest, r);
    }
  }

  /** `replace` at an occurrence at the front. */
  lemma ReplaceHit(s: string, p: string, r: string)
    requires |p| > 0 && OccursAt(s, p, 0)
    ensures Replace(s, p, r) == r + Replace(s[|p|..], p, r)
  {
    assert s[0..|p|] == s[..|p|];
  }

  /** `replace` past a first character that starts no occurrence. */
  lemma ReplaceStep(s: string, p: string, r: string)
    requires |p| > 0 && |s| >= |p| && !OccursAt(s, p, 0)
    ensures Replace(s, p, r) == [s[0]] + Replace(s[1..], p, r)
  {
    assert s[0..|p|] == s[..|p|];
  }

  /** Equal strings have equal replacements. */
  lemma ReplaceCongruent(a: string, b: string, p: string, r: string)
    requires |p| > 0 && a == b
    ensures Replace(a, p, r) == Replace(b, p, r)
  {
  }

  /** `ReplaceHit` on the suffix from index `k`. */
  lemma ReplaceHitAt(s: string, p: string, r: string, k: nat)
    requires |p| > 0 && OccursAt(s, p, k)
    ensures Replace(s[k..], p, r) == r + Replace(s[k + |p|..], p, r)
  {
    assert s[k..][0..|p|] == s[k..k + |p|];
    ReplaceHit(s[k..], p, r);
    assert s[k..][|p|..] == s[k + |p|..];
    ReplaceCongruent(s[k..][|p|..], s[k + |p|..], p, r);
  }

  /** `ReplaceStep` on the suffix from index `k`. */
  lemma ReplaceStepAt(s: string, p: string, r: string, k: nat)
    requires |p| > 0 && k + |p| <= |s| && !OccursAt(s, p, k)
    ensures Replace(s[k..], p, r) == [s[k]] + Replace(s[k + 1..], p, r)
  {
    assert s[k..][0..|p|] == s[k..k + |p|];
    ReplaceStep(s[k..], p, r);
    assert s[k..][1..] == s[k + 1..];
    ReplaceCongruent(s[k..][1..], s[k + 1..], p, r);
  }

  /** No occurrence of `p` in `s` starts at an index from `k` up to `i`. */
  predicate NoneBetween(s: string, p: string, k: nat, i: nat)
    decreases i - k
  {
    k >= i || (!OccursAt(s, p, k) && NoneBetween(s, p, k + 1, i))
  }

  /** The quantified form of `NoneBetween`. */
  lemma {:induction false} NoneBetweenOf(s: string, p: string, k: nat, i: nat)
    requires forall j :: k <= j < i ==> !OccursAt(s, p, j)
    ensures NoneBetween(s, p, k, i)
    decreases i - k
  {
    if k < i {
      NoneBetweenOf(s, p, k + 1, i);
    }
  }

  /** `replace` on the suffix from `k`, when the first occurrence at or
      after `k` is at `i`. */
  lemma {:induction false} ReplaceFrom(s: string, p: string, r: string, k: nat, i: nat)
    requires |p| > 0 && k <= i && OccursAt(s, p, i) && NoneBetween(s, p, k, i)
    ensures Replace(s[k..], p, r) == s[k..i] + r + Replace(s[i + |p|..], p, r)
    decreases i - k, 1
  {
    if k == i {
      ReplaceHitAt(s, p, r, k);
      assert s[k..i] == [];
    } else {
      ReplaceFromStep(s, p, r, k, i, Replace(s[k + 1..], p, r), Replace(s[i + |p|..], p, r));
    }
  }

  /** The step of `ReplaceFrom` past index `k`, which starts no occurrence. */
  lemma {:induction false} ReplaceFromStep(s: string, p: string, r: string, k: nat, i: nat, rest: string, after: string)
    requires |p| > 0 && k < i && OccursAt(s, p, i) && NoneBetween(s, p, k, i)
    requires rest == Replace(s[k + 1..], p, r) && after == Replace(s[i + |p|..], p, r)
    ensures Replace(s[k..], p, r) == s[k..i] + r + after
    decreases i - k, 0
  {
    ReplaceStepAt(s, p, r, k);
    ReplaceFrom(s, p, r, k + 1, i);
    ConsSlice(s, k, i, r + after);
  }

  /** Putting character `k` back in front of the slice after it. */
  lemma ConsSlice(s: string, k: nat, i: nat, t: string)
    requires k < i <= |s|
    ensures [s[k]] + (s[k + 1..i] + t) == s[k..i] + t
  {
    assert [s[k]] + s[k + 1..i] == s[k..i];
  }

  /** `replace` keeps everything before the first occurrence, puts the
      replacement in its place and carries on after it; with the case
      without occurrences this fixes the result on every input. */
  lemma ReplaceAtFirst(s: string, p: string, r: string, i: nat)
    requires |p| > 0 && OccursAt(s, p, i)
    requires forall j :: 0 <= j < i ==> !OccursAt(s, p, j)
    ensures Replace(s, p, r) == s[..i] + r + Replace(s[i + |p|..], p, r)
  {
    NoneBetweenOf(s, p, 0, i);
    ReplaceFrom(s, p, r, 0, i);
    assert s[0..] == s;
    ReplaceCongruent(s[0..], s, p, r);
    assert s[0..i] == s[..i];
  }

  /** With a longer replacement the result never shrinks, and it grows
      exactly when the pattern occurs. */
  lemma {:induction false} ReplaceGrows(s: string, p: string, r: string)
    requires |p| > 0 && |r| > |p|
    ensures |Replace(s, p, r)| >= |s|
    ensures Contains(s, p) ==> |Replace(s, p, r)| > |s|
    decreases |s|
  {
    if |s| < |p| {
    } else if StartsWith(s, p) {
      assert s[0..|p|] == s[..|p|];
      ReplaceHit(s, p, r);
      ReplaceGrows(s[|p|..], p, r);
    } else {
      assert s[0..|p|] == s[..|p|];
      ReplaceStep(s, p, r);
      ContainsAfterFirst(s, p);
      ReplaceGrows(s[1..], p, r);
    }
  }

  /** A last character that cannot end an occurrence of the pattern stays last. */
  lemma {:induction false} ReplaceKeepsLast(s: string, p: string, r: string)
    requires |p| > 0 && |s| > 0 && s[|s| - 1] != p[|p| - 1]
    ensures |Replace(s, p, r)| > 0
    ensures Replace(s, p, r)[|Replace(s, p, r)| - 1] == s[|s| - 1]
    decreases |s|, 1
  {
    if |s| >= |p| {
      assert s[0..|p|] == s[..|p|];
      if OccursAt(s, p, 0) {
        ReplaceHit(s, p, r);
        KeepsLastAfter(s, p, r, |p|);
      } else {
        ReplaceStep(s, p, r);
        if |s| > 1 {
          KeepsLastAfter(s, p, r, 1);
        }
      }
    }
  }

  /** The step of `ReplaceKeepsLast`: the rest after the first `k`
      characters ends in the same character, and so does its replacement. */
  lemma {:induction false} KeepsLastAfter(s: string, p: string, r: string, k: nat)
    requires |p| > 0 && 0 < k < |s| && s[|s| - 1] != p[|p| - 1]
    ensures |Replace(s[k..], p, r)| > 0
    ensures Replace(s[k..], p, r)[|Replace(s[k..], p, r)| - 1] == s[|s| - 1]
    decreases |s| - k, 2
  {
    ReplaceKeepsLast(s[k..], p, r);
  }

  /** The number of leading whitespace characters. */
  function LeadingSpaces(s: string): (k: nat)
    ensures k <= |s|
    ensures forall m :: 0 <= m < k ==> IsSpace(s[m])
    ensures k < |s| ==> !IsSpace(s[k])
  {
    if |s| > 0 && IsSpace(s[0]) then 1 + LeadingSpaces(s[1..]) else 0
  }

  /** The number of trailing whitespace characters. */
  function TrailingSpaces(s: string): (k: nat)
    ensures k <= |s|
    ensures forall m :: |s| - k <= m < |s| ==> IsSpace(s[m])
    ensures k < |s| ==> !IsSpace(s[|s| - 1 - k])
  {
    if |s| > 0 && IsSpace(s[|s| - 1]) then 1 + TrailingSpaces(s[..|s| - 1]) else 0
  }

  /** `s.strip()`: leading and trailing whitespace removed. */
  function Strip(s: string): (r: string)
    ensures r == [] <==> forall m :: 0 <= m < |s| ==> IsSpace(s[m])
    ensures r != [] ==> !IsSpace(r[0]) && !IsSpace(r[|r| - 1])
    ensures |s| > 0 && !IsSpace(s[|s| - 1]) ==> r != [] && r[|r| - 1] == s[|s| - 1]
    ensures |s| > 0 && !IsSpace(s[0]) && !IsSpace(s[|s| - 1]) ==> r == s
    ensures exists a, b ::
              && 0 <= a <= b <= |s| && r == s[a..b]
              && (forall m :: 0 <= m < a ==> IsSpace(s[m]))
              && (forall m :: b <= m < |s| ==> IsSpace(s[m]))
  {
    var a := LeadingSpaces(s);
    if a == |s| then
      assert s[a..a] == [];
      []
    else
      var b := |s| - TrailingSpaces(s);
      s[a..b]
  }

  /** The number of leading non-whitespace characters: the length of the first word. */
  function WordLength(s: string): (n: nat)
    ensures n <= |s|
    ensures forall m :: 0 <= m < n ==> !IsSpace(s[m])
    ensures n < |s| ==> IsSpace(s[n])
  {
    if |s| > 0 && !IsSpace(s[0]) then 1 + WordLength(s[1..]) else 0
  }

  /** `s.split()`: the maximal runs of non-whitespace characters, in order. */
  function Split(s: string): (words: seq<string>)
    ensures words == [] <==> forall m :: 0 <= m < |s| ==> IsSpace(s[m])
    decreases |s|
  {
    if |s| == 0 then []
    else if IsSpace(s[0]) then Split(s[1..])
    else
      var n := WordLength(s);
      [s[..n]] + Split(s[n..])
  }

  /** `w` stands in `s` between whitespace or the ends of `s`, from index `i` to `j`. */
  predicate TokenAt(s: string, w: string, i: int, j: int) {
    && 0 <= i < j <= |s|
    && s[i..j] == w
    && (forall m :: i <= m < j ==> !IsSpace(s[m]))
    && (i == 0 || IsSpace(s[i - 1]))
    && (j == |s| || IsSpace(s[j]))
  }

  /** `w` is a whole whitespace-delimited word of `s`. */
  ghost predicate IsToken(s: string, w: string) {
    exists i, j :: TokenAt(s, w, i, j)
  }

  lemma TokenShift(s: string, w: string, d: nat, i: int, j: int)
    requires d <= |s| && TokenAt(s[d..], w, i, j) && (d > 0 && i == 0 ==> IsSpace(s[d - 1]))
    ensures TokenAt(s, w, i + d, j + d)
  {
    assert s[i + d..j + d] == s[d..][i..j];
    forall m | i + d <= m < j + d ensures !IsSpace(s[m]) {
      assert s[m] == s[d..][m - d];
    }
    if i > 0 { assert s[i + d - 1] == s[d..][i - 1]; }
    if j + d < |s| { assert s[j + d] == s[d..][j]; }
  }

  lemma TokenUnshift(s: string, w: string, d: nat, i: int, j: int)
    requires d <= i && TokenAt(s, w, i, j) && (i == d ==> d == 0 || IsSpace(s[d - 1]))
    ensures TokenAt(s[d..], w, i - d, j - d)
  {
    assert s[d..][i - d..j - d] == s[i..j];
    forall m | i - d <= m < j - d ensures !IsSpace(s[d..][m]) {
      assert s[d..][m] == s[m + d];
    }
    if i - d > 0 { assert s[d..][i - d - 1] == s[i - 1]; }
    if j - d < |s[d..]| { assert s[d..][j - d] == s[j]; }
  }

  /** The words `split()` returns are exactly the whole whitespace-delimited
      words of the string: a word glued to punctuation is not one of them. */
  lemma {:induction false} SplitTokens(s: string, w: string)
    ensures w in Split(s) <==> IsToken(s, w)
    decreases |s|
  {
    if |s| == 0 {
    } else if IsSpace(s[0]) {
      SplitTokens(s[1..], w);
      if w in Split(s[1..]) {
        var i, j :| TokenAt(s[1..], w, i, j);
        TokenShift(s, w, 1, i, j);
      }
      if IsToken(s, w) {
        var i, j :| TokenAt(s, w, i, j);
        TokenUnshift(s, w, 1, i, j);
      }
    } else {
      SplitTokens(s[WordLength(s)..], w);
      SplitTokensWord(s, w);
    }
  }

  /** The step of `SplitTokens` past a first word. */
  lemma SplitTokensWord(s: string, w: string)
    requires |s| > 0 && !IsSpace(s[0])
    requires w in Split(s[WordLength(s)..]) <==> IsToken(s[WordLength(s)..], w)
    ensures w in Split(s) <==> IsToken(s, w)
  {
    var n := WordLength(s);
    assert Split(s) == [s[..n]] + Split(s[n..]);
    if w == s[..n] {
      assert s[0..n] == s[..n];
      assert TokenAt(s, w, 0, n);
    } else if w in Split(s[n..]) {
      var i, j :| TokenAt(s[n..], w, i, j);
      TokenShift(s, w, n, i, j);
    }
    if IsToken(s, w) {
      var i, j :| TokenAt(s, w, i, j);
      if i == 0 {
        assert s[0..j] == s[..n];
      } else {
        assert i - 1 >= n;
        TokenUnshift(s, w, n, i, j);
      }
    }
  }

  /** Leading whitespace does not change the words. */
  lemma {:induction false} SplitSkipsSpaces(s: string)
    ensures Split(s) == Split(s[LeadingSpaces(s)..])
    decreases |s|
  {
    if |s| > 0 && IsSpace(s[0]) {
      SplitSkipsSpaces(s[1..]);
      assert s[1..][LeadingSpaces(s[1..])..] == s[LeadingSpaces(s)..];
    }
  }

  /** `s.split(maxsplit=1)`: the first word, then (when anything follows it)
      the rest of the string with its leading whitespace removed; trailing
      whitespace of the rest is kept. */
  function SplitOnce(s: string): (parts: seq<string>)
    ensures |parts| <= 2
    ensures |parts| > 0 ==> parts[0] != []
    ensures |parts| == 2 ==> EndsWith(s, parts[1]) && parts[1] != [] && !IsSpace(parts[1][0])
    ensures |parts| == 2 ==> |parts[1]| < |s| && IsSpace(s[|s| - |parts[1]| - 1])
    decreases |s|
  {
    if |s| == 0 then []
    else if IsSpace(s[0]) then SplitOnce(s[1..])
    else
      var n := WordLength(s);
      var rest := s[n..];
      var m := LeadingSpaces(rest);
      if m == |rest| then [s[..n]] else [s[..n], rest[m..]]
  }

  lemma SplitWordFirst(u: string)
    requires |u| > 0 && !IsSpace(u[0])
    ensures |Split(u)| > 0
    ensures Split(u)[0] == u[..WordLength(u)]
    ensures Split(u)[1..] == Split(u[WordLength(u)..])
  {
  }

  /** `split(maxsplit=1)` agrees with `split()`: the same first word, a second
      part exactly when there is a second word, and that part splits into the
      remaining words. */
  lemma {:induction false} SplitOnceMatchesSplit(s: string)
    ensures |SplitOnce(s)| == if |Split(s)| < 2 then |Split(s)| else 2
    ensures |SplitOnce(s)| > 0 ==> SplitOnce(s)[0] == Split(s)[0]
    ensures |SplitOnce(s)| == 2 ==> Split(SplitOnce(s)[1]) == Split(s)[1..]
    decreases |s|
  {
    if |s| == 0 {
    } else if IsSpace(s[0]) {
      SplitOnceMatchesSplit(s[1..]);
    } else {
      var n := WordLength(s);
      var rest := s[n..];
      SplitWordFirst(s);
      SplitSkipsSpaces(rest);
      var m := LeadingSpaces(rest);
      if m < |rest| {
        SplitWordFirst(rest[m..]);
      } else {
        assert rest[m..] == [];
      }
    }
  }

  predicate IsDigit(c: char) {
    '0' <= c <= '9'
  }

  function DigitChar(d: nat): char
    requires d < 10
  {
    ('0' as int + d) as char
  }

  /** The decimal digits of `n`, most significant first, without leading zeros. */
  function NatToDecimal(n: nat): (r: string)
    ensures |r| > 0
    ensures forall i :: 0 <= i < |r| ==> IsDigit(r[i])
    ensures r[0] == '0' ==> n == 0
  {
    if n < 10 then [DigitChar(n)] else NatToDecimal(n / 10) + [DigitChar(n % 10)]
  }

  /** The number a string of decimal digits denotes. */
  function DecimalValue(s: string): int
    requires forall i :: 0 <= i < |s| ==> IsDigit(s[i])
  {
    if |s| == 0 then 0
    else DecimalValue(s[..|s| - 1]) * 10 + (s[|s| - 1] as int - '0' as int)
  }

  /** Reading the digits back gives the number. */
  lemma {:induction false} NatToDecimalRoundTrip(n: nat)
    ensures DecimalValue(NatToDecimal(n)) == n
  {
    if n >= 10 {
      NatToDecimalRoundTrip(n / 10);
      var r := NatToDecimal(n);
      assert r[..|r| - 1] == NatToDecimal(n / 10);
    }
  }

  /** `str(n)` for an integer. */
  function IntToDecimal(n: int): (r: string)
    ensures |r| > 0
    ensures forall i :: 0 <= i < |r| ==> IsDigit(r[i]) || (i == 0 && r[i] == '-')
    ensures r[0] == '-' <==> n < 0
    ensures n >= 0 ==> DecimalValue(r) == n
    ensures n < 0 ==> DecimalValue(r[1..]) == -n
    ensures n >= 0 && r[0] == '0' ==> r == "0"
    ensures n < 0 ==> |r| > 1 && r[1] != '0'
  {
    if n < 0 then
      NatToDecimalRoundTrip(-n);
      var r := "-" + NatToDecimal(-n);
      assert r[1..] == NatToDecimal(-n);
      r
    else
      NatToDecimalRoundTrip(n);
      NatToDecimal(n)
  }
}
