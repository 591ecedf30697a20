// The few JavaScript built-ins the documentation store relies on, stated over
// `seq<char>`: the `\s` and `\w` regular-expression classes, `trim`,
// `toLowerCase`, `startsWith`, `slice`, and `Array.prototype.filter` with a
// "not equal to" test. One `char` stands for one Unicode scalar value; the
// model agrees with JavaScript's UTF-16 strings only on text inside the Basic
// Multilingual Plane.
module JsRuntime {

  datatype Option<T> = None | Some(value: T)

  /** The characters matched by `\s` and removed by `String.prototype.trim`. */
  predicate IsSpace(c: char) {
    || c == ' ' || c == '\t' || c == '\n' || c == '\U{000B}' || c == '\U{000C}' || c == '\r'
    || c == '\U{00A0}' || c == '\U{1680}' || ('\U{2000}' <= c <= '\U{200A}')
    || c == '\U{2028}' || c == '\U{2029}' || c == '\U{202F}' || c == '\U{205F}'
    || c == '\U{3000}' || c == '\U{FEFF}'
  }

  /** The characters matched by `\w` (without the `u` flag): `[A-Za-z0-9_]`. */
  predicate IsWordChar(c: char) {
    ('a' <= c <= 'z') || ('A' <= c <= 'Z') || ('0' <= c <= '9') || c == '_'
  }

  predicate IsDigit(c: char) {
    '0' <= c <= '9'
  }

  /** A character of a URL slug or derived file name: `[a-z0-9_-]`. */
  predicate IsSlugChar(c: char) {
    ('a' <= c <= 'z') || ('0' <= c <= '9') || c == '_' || c == '-'
  }

  predicate NoSpace(s: string) {
    forall i :: 0 <= i < |s| ==> !IsSpace(s[i])
  }

  predicate AllSpace(s: string) {
    forall i :: 0 <= i < |s| ==> IsSpace(s[i])
  }

  predicate AllSlugChars(s: string) {
    forall i :: 0 <= i < |s| ==> IsSlugChar(s[i])
  }

  /** `toLowerCase` restricted to ASCII: `A`..`Z` become `a`..`z`, all else is kept. */
  function ToLowerAscii(c: char): (r: char)
    ensures 'A' <= c <= 'Z' ==> 'a' <= r <= 'z'
    ensures !('A' <= c <= 'Z') ==> r == c
  {
    if 'A' <= c <= 'Z' then (c as int + 32) as char else c
  }

  function LowerAscii(s: string): (r: string)
    ensures |r| == |s|
    ensures forall i :: 0 <= i < |s| ==> r[i] == ToLowerAscii(s[i])
  {
    if s == [] then [] else [ToLowerAscii(s[0])] + LowerAscii(s[1..])
  }

  /** `trimStart`: drops the leading run of whitespace. */
  function TrimStart(s: string): (r: string)
    ensures |r| <= |s| && r == s[|s| - |r|..]
    ensures r == [] || !IsSpace(r[0])
    ensures AllSpace(s[..|s| - |r|])
  {
    if s != [] && IsSpace(s[0]) then TrimStart(s[1..]) else s
  }

  /** `trimEnd`: drops the trailing run of whitespace. */
  function TrimEnd(s: string): (r: string)
    ensures |r| <= |s| && r == s[..|r|]
    ensures r == [] || !IsSpace(r[|r| - 1])
    ensures AllSpace(s[|r|..])
  {
    if s != [] && IsSpace(s[|s| - 1]) then TrimEnd(s[..|s| - 1]) else s
  }

  function Trim(s: string): string {
    TrimEnd(TrimStart(s))
  }

  /** `s.trim()` is empty exactly when `s` consists of whitespace only. */
  lemma TrimEmptyIffAllSpace(s: string)
    ensures Trim(s) == [] <==> AllSpace(s)
  {
    var a := TrimStart(s);
    if Trim(s) == [] {
      assert a[0..] == a;
      assert s[..|s| - |a|] == s;
    } else {
      assert a != [] && a[0] == s[|s| - |a|];
    }
  }

  /** The result of `trim` neither starts nor ends with whitespace. */
  lemma TrimHasNoOuterSpace(s: string)
    ensures Trim(s) == [] || (!IsSpace(Trim(s)[0]) && !IsSpace(Trim(s)[|Trim(s)| - 1]))
  {
    var a := TrimStart(s);
    var r := TrimEnd(a);
    if r != [] {
      assert r[0] == a[0];
    }
  }

  predicate StartsWith(s: string, prefix: string) {
    |prefix| <= |s| && s[..|prefix|] == prefix
  }

  lemma StartsWithAppend(prefix: string, rest: string)
    ensures StartsWith(prefix + rest, prefix)
  {
    assert (prefix + rest)[..|prefix|] == prefix;
  }

  /** Two prefixes of one string: the shorter is a prefix of the longer. */
  lemma StartsWithBoth(s: string, a: string, b: string)
    requires StartsWith(s, a) && StartsWith(s, b) && |a| <= |b|
    ensures StartsWith(b, a)
  {
    assert b[..|a|] == s[..|b|][..|a|] == s[..|a|];
  }

  /**
   * The text `String.prototype.replace` inserts for one match of a string
   * pattern: `$$` gives `$`, `$&` the matched text, `` $` `` the text before
   * the match and `$'` the text after it. A string pattern has no capture
   * groups, so every other `$` stays as it is.
   */
  function ReplacementText(rep: string, before: string, matched: string, after: string): string
    decreases |rep|
  {
    if rep == [] then []
    else if rep[0] == '$' && |rep| >= 2 && rep[1] == '$' then "$" + ReplacementText(rep[2..], before, matched, after)
    else if rep[0] == '$' && |rep| >= 2 && rep[1] == '&' then matched + ReplacementText(rep[2..], before, matched, after)
    else if rep[0] == '$' && |rep| >= 2 && rep[1] == '`' then before + ReplacementText(rep[2..], before, matched, after)
    else if rep[0] == '$' && |rep| >= 2 && rep[1] == '\'' then after + ReplacementText(rep[2..], before, matched, after)
    else [rep[0]] + ReplacementText(rep[1..], before, matched, after)
  }

  /** A replacement without `$` is inserted literally. */
  lemma {:induction false} ReplacementTextLiteral(rep: string, before: string, matched: string, after: string)
    ensures '$' !in rep ==> ReplacementText(rep, before, matched, after) == rep
    decreases |rep|
  {
    if rep != [] && '$' !in rep {
      assert '$' !in rep[1..] by {
        assert forall c :: c in rep[1..] ==> c in rep;
      }
      ReplacementTextLiteral(rep[1..], before, matched, after);
    }
  }

  /**
   * `s.slice(start, end)` for non-negative arguments: both ends are clamped
   * to the length, and an empty string results when `end <= start`.
   */
  function Slice(s: string, start: nat, end: nat): (r: string)
    ensures start <= end <= |s| ==> r == s[start..end]
    ensures |r| <= |s|
  {
    var a := if start <= |s| then start else |s|;
    var b := if end <= |s| then end else |s|;
    if a < b then s[a..b] else []
  }

  predicate NoDuplicates<T(==)>(s: seq<T>) {
    forall i, j :: 0 <= i < j < |s| ==> s[i] != s[j]
  }

  /** `s.filter(x => x !== k)`. */
  function Without<T(==,!new)>(s: seq<T>, k: T): (r: seq<T>)
    ensures forall x :: x in r <==> x in s && x != k
    ensures |r| <= |s|
    ensures NoDuplicates(s) ==> NoDuplicates(r)
  {
    if s == [] then []
    else if s[0] == k then Without(s[1..], k)
    else
      var rest := Without(s[1..], k);
      assert NoDuplicates(s) ==> s[0] !in s[1..];
      [s[0]] + rest
  }

  lemma WithoutAbsent<T(!new)>(s: seq<T>, k: T)
    requires k !in s
    ensures Without(s, k) == s
  {
    if s != [] {
      WithoutAbsent(s[1..], k);
    }
  }

  // `String.prototype.replace` with the two global regular-expression shapes
  // the documentation hub uses, for a character class given as a predicate.

  /** Every character of `s` is in the class `p`. */
  predicate AllIn(s: string, p: char -> bool) {
    forall i :: 0 <= i < |s| ==> p(s[i])
  }

  /** The rest of a run after its first character: the leading class characters are skipped. */
  function SkipRun(s: string, inRun: char -> bool): (r: string)
    ensures |r| <= |s|
    ensures s != [] && !inRun(s[|s| - 1]) ==> r != [] && r[|r| - 1] == s[|s| - 1]
  {
    if s != [] && inRun(s[0]) then SkipRun(s[1..], inRun) else s
  }

  /** `s.replace(/[C]+/g, rep)`: every maximal run of class characters becomes one `rep`. */
  function ReplaceRuns(s: string, inRun: char -> bool, rep: char): (r: string)
    ensures forall i :: 0 <= i < |r| ==> r[i] == rep || !inRun(r[i])
    decreases |s|
  {
    if s == [] then []
    else if inRun(s[0]) then [rep] + ReplaceRuns(SkipRun(s[1..], inRun), inRun, rep)
    else [s[0]] + ReplaceRuns(s[1..], inRun, rep)
  }

  /** `s.replace(/[^K]/g, '')`: keeps the characters of the class `keep`, in order. */
  function KeepOnly(s: string, keep: char -> bool): (r: string)
    ensures |r| <= |s| && AllIn(r, keep)
  {
    if s == [] then []
    else if keep(s[0]) then [s[0]] + KeepOnly(s[1..], keep)
    else KeepOnly(s[1..], keep)
  }

  lemma {:induction false} SkipRunIsSuffix(s: string, inRun: char -> bool)
    ensures SkipRun(s, inRun) == s[|s| - |SkipRun(s, inRun)|..]
  {
    if s != [] && inRun(s[0]) {
      SkipRunIsSuffix(s[1..], inRun);
    }
  }

  lemma {:induction false} SkipRunOverRun(run: string, b: string, inRun: char -> bool)
    requires AllIn(run, inRun)
    requires b == [] || !inRun(b[0])
    ensures SkipRun(run + b, inRun) == b
  {
    if run != [] {
      assert (run + b)[0] == run[0] && (run + b)[1..] == run[1..] + b;
      SkipRunOverRun(run[1..], b, inRun);
    } else {
      assert run + b == b;
    }
  }

  lemma {:induction false} SkipRunConcat(a: string, c: string, inRun: char -> bool)
    requires a != [] && !inRun(a[|a| - 1])
    ensures SkipRun(a + c, inRun) == SkipRun(a, inRun) + c
  {
    assert (a + c)[0] == a[0];
    if inRun(a[0]) {
      assert (a + c)[1..] == a[1..] + c;
      SkipRunConcat(a[1..], c, inRun);
    }
  }

  /** A run between two parts is replaced by exactly one `rep`, and each part on its own. */
  lemma ReplaceRunsAround(a: string, run: string, b: string, inRun: char -> bool, rep: char)
    requires a == [] || !inRun(a[|a| - 1])
    requires run != [] && AllIn(run, inRun)
    requires b == [] || !inRun(b[0])
    ensures ReplaceRuns(a + run + b, inRun, rep) == ReplaceRuns(a, inRun, rep) + [rep] + ReplaceRuns(b, inRun, rep)
  {
    var rb := run + b;
    ConcatShapes(a, run, b, inRun);
    SkipRunOverRun(run[1..], b, inRun);
    ReplaceRunsBeforeRun(a, rb, b, inRun, rep);
  }

  lemma ConcatShapes(a: string, run: string, b: string, inRun: char -> bool)
    requires run != [] && AllIn(run, inRun)
    ensures a + run + b == a + (run + b)
    ensures (run + b)[0] == run[0] && inRun(run[0]) && (run + b)[1..] == run[1..] + b
    ensures AllIn(run[1..], inRun)
  {
    forall i | 0 <= i < |run| - 1
      ensures inRun(run[1..][i])
    {
      assert run[1..][i] == run[i + 1];
    }
  }

  /** `rb` opens with a run that `b` follows: the text before it is replaced on its own. */
  lemma {:induction false} ReplaceRunsBeforeRun(a: string, rb: string, b: string, inRun: char -> bool, rep: char)
    requires a == [] || !inRun(a[|a| - 1])
    requires rb != [] && inRun(rb[0]) && SkipRun(rb[1..], inRun) == b
    ensures ReplaceRuns(a + rb, inRun, rep) == ReplaceRuns(a, inRun, rep) + [rep] + ReplaceRuns(b, inRun, rep)
    decreases |a|, 1
  {
    if a == [] {
      assert a + rb == rb;
    } else if inRun(a[0]) {
      ReplaceRunsBeforeRunFromRun(a, rb, b, inRun, rep);
    } else {
      var a1 := a[1..];
      var s := a + rb;
      assert s[0] == a[0] && s[1..] == a1 + rb;
      ReplaceRunsBeforeRun(a1, rb, b, inRun, rep);
      assert ReplaceRuns(s, inRun, rep) == [a[0]] + ReplaceRuns(a1 + rb, inRun, rep);
    }
  }

  /** The case of `ReplaceRunsBeforeRun` where the text before the run opens with a run of its own. */
  lemma {:induction false} ReplaceRunsBeforeRunFromRun(a: string, rb: string, b: string, inRun: char -> bool, rep: char)
    requires a != [] && inRun(a[0]) && !inRun(a[|a| - 1])
    requires rb != [] && inRun(rb[0]) && SkipRun(rb[1..], inRun) == b
    ensures ReplaceRuns(a + rb, inRun, rep) == ReplaceRuns(a, inRun, rep) + [rep] + ReplaceRuns(b, inRun, rep)
    decreases |a|, 0
  {
    var a1 := a[1..];
    var s := a + rb;
    assert s[0] == a[0] && s[1..] == a1 + rb;
    assert a1 != [] && a1[|a1| - 1] == a[|a| - 1];
    SkipRunConcat(a1, rb, inRun);
    var a' := SkipRun(a1, inRun);
    ReplaceRunsBeforeRun(a', rb, b, inRun, rep);
    assert ReplaceRuns(s, inRun, rep) == [rep] + ReplaceRuns(a' + rb, inRun, rep);
    assert ReplaceRuns(a, inRun, rep) == [rep] + ReplaceRuns(a', inRun, rep);
  }

  /** A string without class characters is left as it is. */
  lemma {:induction false} ReplaceRunsWithoutRun(s: string, inRun: char -> bool, rep: char)
    requires forall i :: 0 <= i < |s| ==> !inRun(s[i])
    ensures ReplaceRuns(s, inRun, rep) == s
  {
    if s != [] {
      ReplaceRunsWithoutRun(s[1..], inRun, rep);
    }
  }

  /** No two neighbouring characters of `s` are both in the class `p`. */
  predicate NoAdjacentIn(s: string, p: char -> bool) {
    forall i :: 1 <= i < |s| ==> !(p(s[i - 1]) && p(s[i]))
  }

  /**
   * A replacement is never followed by a class character: the run it
   * replaced was maximal. So when `rep` is itself in the class, no two class
   * characters are adjacent in the result.
   */
  lemma {:induction false} ReplaceRunsNoAdjacent(s: string, inRun: char -> bool, rep: char)
    requires inRun(rep)
    ensures NoAdjacentIn(ReplaceRuns(s, inRun, rep), inRun)
    decreases |s|
  {
    if s != [] {
      var r := ReplaceRuns(s, inRun, rep);
      var t := if inRun(s[0]) then SkipRun(s[1..], inRun) else s[1..];
      ReplaceRunsNoAdjacent(t, inRun, rep);
      var rt := ReplaceRuns(t, inRun, rep);
      assert r == [r[0]] + rt && r[0] == if inRun(s[0]) then rep else s[0];
      if inRun(s[0]) && rt != [] {
        SkipRunStopsAtOther(s[1..], inRun);
        assert rt[0] == t[0];
      }
      forall i | 1 <= i < |r|
        ensures !(inRun(r[i - 1]) && inRun(r[i]))
      {
        assert r[i] == rt[i - 1];
        if i > 1 {
          assert r[i - 1] == rt[i - 2];
        }
      }
    }
  }

  /**
   * A string whose class characters are lone copies of `rep` is left as it
   * is: every run has length one and is replaced by itself.
   */
  lemma {:induction false} ReplaceRunsKeepsSingles(s: string, inRun: char -> bool, rep: char)
    requires NoAdjacentIn(s, inRun)
    requires forall i :: 0 <= i < |s| && inRun(s[i]) ==> s[i] == rep
    ensures ReplaceRuns(s, inRun, rep) == s
  {
    if s != [] {
      var t := s[1..];
      forall i | 1 <= i < |t|
        ensures !(inRun(t[i - 1]) && inRun(t[i]))
      {
        assert t[i - 1] == s[i] && t[i] == s[i + 1];
      }
      ReplaceRunsKeepsSingles(t, inRun, rep);
      if inRun(s[0]) && t != [] {
        assert !inRun(s[1]);
      }
    }
  }

  lemma {:induction false} SkipRunStopsAtOther(s: string, inRun: char -> bool)
    ensures SkipRun(s, inRun) == [] || !inRun(SkipRun(s, inRun)[0])
  {
    if s != [] && inRun(s[0]) {
      SkipRunStopsAtOther(s[1..], inRun);
    }
  }

  /** The result's characters are `rep` or characters of the input. */
  lemma {:induction false} ReplaceRunsFromInput(s: string, inRun: char -> bool, rep: char)
    ensures forall c :: c in ReplaceRuns(s, inRun, rep) ==> c == rep || c in s
    decreases |s|
  {
    if s != [] {
      if inRun(s[0]) {
        var t := SkipRun(s[1..], inRun);
        SkipRunIsSuffix(s[1..], inRun);
        ReplaceRunsFromInput(t, inRun, rep);
        assert forall c :: c in t ==> c in s;
      } else {
        ReplaceRunsFromInput(s[1..], inRun, rep);
      }
    }
  }

  lemma {:induction false} KeepOnlyConcat(a: string, b: string, keep: char -> bool)
    ensures KeepOnly(a + b, keep) == KeepOnly(a, keep) + KeepOnly(b, keep)
  {
    if a != [] {
      assert (a + b)[0] == a[0] && (a + b)[1..] == a[1..] + b;
      KeepOnlyConcat(a[1..], b, keep);
    } else {
      assert a + b == b;
    }
  }

  /** A string made only of kept characters passes the filter unchanged. */
  lemma {:induction false} KeepOnlyIdentity(s: string, keep: char -> bool)
    requires AllIn(s, keep)
    ensures KeepOnly(s, keep) == s
  {
    if s != [] {
      KeepOnlyIdentity(s[1..], keep);
    }
  }

  /** A string with no kept character is filtered down to nothing. */
  lemma {:induction false} KeepOnlyNone(s: string, keep: char -> bool)
    requires forall i :: 0 <= i < |s| ==> !keep(s[i])
    ensures KeepOnly(s, keep) == []
  {
    if s != [] {
      KeepOnlyNone(s[1..], keep);
    }
  }

  lemma {:induction false} KeepOnlyFromInput(s: string, keep: char -> bool)
    ensures forall c :: c in KeepOnly(s, keep) ==> c in s
  {
    if s != [] {
      KeepOnlyFromInput(s[1..], keep);
    }
  }
}
