/** The handful of Python `str` operations the splitters and the batcher rely
    on: whitespace, `strip()`, `split('\n')`, slicing with Python's index
    rules, `startswith`, and ASCII lower-casing. */
module PyStr {

  /** The code points, as inclusive ranges, for which Python's
      `str.isspace()` holds, which is also what `\s` matches in a `str`
      regex: the characters of bidirectional class WS, B or S, or of general
      category Zs. */
  const SpaceRanges: seq<(int, int)> := [
    (0x09, 0x0d), (0x1c, 0x20), (0x85, 0x85), (0xa0, 0xa0), (0x1680, 0x1680),
    (0x2000, 0x200a), (0x2028, 0x2029), (0x202f, 0x202f), (0x205f, 0x205f), (0x3000, 0x3000)
  ]

  predicate InRanges(n: int, ranges: seq<(int, int)>) {
    ranges != [] && (ranges[0].0 <= n <= ranges[0].1 || InRanges(n, ranges[1..]))
  }

  predicate IsSpace(c: char) {
    InRanges(c as int, SpaceRanges)
  }

  predicate AllSpace(s: string) {
    forall i :: 0 <= i < |s| ==> IsSpace(s[i])
  }

  /** The first index at or after `i` that does not hold whitespace, or
      `|s|` when there is none. */
  function SkipSpace(s: string, i: nat): (r: nat)
    requires i <= |s|
    ensures i <= r <= |s|
    ensures r < |s| ==> !IsSpace(s[r])
    ensures forall k :: i <= k < r ==> IsSpace(s[k])
    decreases |s| - i
  {
    if i < |s| && IsSpace(s[i]) then SkipSpace(s, i + 1) else i
  }

  /** The end of `s[..j]` once its trailing whitespace is dropped. */
  function SkipSpaceBack(s: string, j: nat): (r: nat)
    requires j <= |s|
    ensures r <= j
    ensures 0 < r ==> !IsSpace(s[r - 1])
    ensures forall k :: r <= k < j ==> IsSpace(s[k])
  {
    if 0 < j && IsSpace(s[j - 1]) then SkipSpaceBack(s, j - 1) else j
  }

  /** `s.lstrip()`: what is dropped is whitespace, what is kept is a suffix
      that does not start with whitespace. */
  function TrimLeft(s: string): (r: string)
    ensures |r| <= |s| && r == s[|s| - |r|..]
    ensures r == [] || !IsSpace(r[0])
    ensures AllSpace(s[..|s| - |r|])
  {
    var lo := SkipSpace(s, 0);
    assert AllSpace(s[..lo]) by {
      forall k | 0 <= k < lo ensures IsSpace(s[..lo][k]) {
        assert s[..lo][k] == s[k];
      }
    }
    s[lo..]
  }

  /** `s.rstrip()`: what is dropped is whitespace, what is kept is a prefix
      that does not end with whitespace. */
  function TrimRight(s: string): (r: string)
    ensures |r| <= |s| && r == s[..|r|]
    ensures r == [] || !IsSpace(r[|r| - 1])
    ensures AllSpace(s[|r|..])
  {
    var hi := SkipSpaceBack(s, |s|);
    assert AllSpace(s[hi..]) by {
      forall k | 0 <= k < |s| - hi ensures IsSpace(s[hi..][k]) {
        assert s[hi..][k] == s[hi + k];
      }
    }
    s[..hi]
  }

  /** `s.strip()`. */
  function Strip(s: string): string {
    TrimRight(TrimLeft(s))
  }

  /** What `strip()` keeps is one contiguous piece of `s`; everything around
      it is whitespace, and the piece neither starts nor ends with
      whitespace. */
  lemma StripIsInfix(s: string) returns (lo: nat)
    ensures lo + |Strip(s)| <= |s| && Strip(s) == s[lo..lo + |Strip(s)|]
    ensures AllSpace(s[..lo]) && AllSpace(s[lo + |Strip(s)|..])
    ensures Strip(s) == [] || (!IsSpace(Strip(s)[0]) && !IsSpace(Strip(s)[|Strip(s)| - 1]))
  {
    var t := TrimLeft(s);
    var r := TrimRight(t);
    lo := |s| - |t|;
    assert s[lo..] == t;
    assert r == t[..|r|];
    assert s[lo..lo + |r|] == t[..|r|];
    if r != [] {
      assert r[0] == t[0];
      assert s[lo + |r|..] == t[|r|..];
    }
  }

  /** `strip()` yields the empty string exactly when `s` is all whitespace. */
  lemma StripEmptyIff(s: string)
    ensures Strip(s) == [] <==> AllSpace(s)
  {
    var lo := StripIsInfix(s);
    if Strip(s) == [] {
      assert s == s[..lo] + s[lo..];
      forall i | 0 <= i < |s| ensures IsSpace(s[i]) {
        if i < lo { assert s[i] == s[..lo][i]; } else { assert s[i] == s[lo..][i - lo]; }
      }
    } else {
      assert s[lo] == Strip(s)[0];
    }
  }

  /** Every character `strip()` keeps comes from `s`. */
  lemma StripChars(s: string)
    ensures forall c :: c in Strip(s) ==> c in s
  {
    var lo := StripIsInfix(s);
    forall c | c in Strip(s) ensures c in s {
      var i :| 0 <= i < |Strip(s)| && Strip(s)[i] == c;
      assert s[lo + i] == c;
    }
  }

  /** `strip()` is idempotent. */
  lemma StripIdempotent(s: string)
    ensures Strip(Strip(s)) == Strip(s)
  {
    var _ := StripIsInfix(s);
  }

  /** `s.split('\n')`: always at least one piece, and no piece holds a
      newline. */
  function SplitLines(s: string): (lines: seq<string>)
    ensures |lines| >= 1
    ensures forall k :: 0 <= k < |lines| ==> '\n' !in lines[k]
  {
    if s == [] then [""]
    else
      var rest := SplitLines(s[1..]);
      if s[0] == '\n' then [""] + rest else [[s[0]] + rest[0]] + rest[1..]
  }

  /** `'\n'.join(lines)`. */
  function JoinLines(lines: seq<string>): string
    requires |lines| >= 1
  {
    if |lines| == 1 then lines[0] else lines[0] + "\n" + JoinLines(lines[1..])
  }

  /** Splitting on newlines loses nothing: joining the pieces back gives `s`. */
  lemma {:induction false} JoinSplitLines(s: string)
    ensures JoinLines(SplitLines(s)) == s
  {
    if s != [] {
      var rest := SplitLines(s[1..]);
      JoinSplitLines(s[1..]);
      if s[0] == '\n' {
        assert SplitLines(s)[1..] == rest;
      } else {
        var lines := SplitLines(s);
        assert lines[1..] == rest[1..];
        if |rest| == 1 {
          assert lines == [[s[0]] + rest[0]];
        } else {
          assert JoinLines(rest) == rest[0] + "\n" + JoinLines(rest[1..]);
        }
      }
    }
  }

  /** And the other direction: newline-free pieces come back unchanged from a
      join followed by a split. */
  lemma {:induction false} SplitJoinLines(lines: seq<string>)
    requires |lines| >= 1
    requires forall k :: 0 <= k < |lines| ==> '\n' !in lines[k]
    ensures SplitLines(JoinLines(lines)) == lines
  {
    if |lines| == 1 {
      NoNewlineSplit(lines[0]);
    } else {
      SplitJoinLines(lines[1..]);
      SplitAfterNewline(lines[0], JoinLines(lines[1..]));
      assert [lines[0]] + lines[1..] == lines;
    }
  }

  lemma {:induction false} NoNewlineSplit(s: string)
    requires '\n' !in s
    ensures SplitLines(s) == [s]
  {
    if s != [] {
      NoNewlineSplit(s[1..]);
      assert [s[0]] + s[1..] == s;
    }
  }

  lemma {:induction false} SplitAfterNewline(a: string, b: string)
    requires '\n' !in a
    ensures SplitLines(a + "\n" + b) == [a] + SplitLines(b)
  {
    if a == [] {
      assert a + "\n" + b == "\n" + b;
      assert ("\n" + b)[1..] == b;
    } else {
      assert (a + "\n" + b)[1..] == a[1..] + "\n" + b;
      SplitAfterNewline(a[1..], b);
      assert [a[0]] + a[1..] == a;
    }
  }

  /** Python's normalisation of one slice bound against a length `n`:
      negative bounds count from the end, and the result is clipped to
      `[0, n]`. */
  function SliceBound(i: int, n: nat): (r: nat)
    ensures r <= n
    ensures 0 <= i <= n ==> r == i
  {
    if i < 0 then (if i + n < 0 then 0 else i + n) else if i > n then n else i
  }

  /** `s[i:j]` with Python's rules: bounds are normalised, and a slice whose
      start is not before its end is empty. */
  function PySlice(s: string, i: int, j: int): (r: string)
    ensures |r| <= |s|
  {
    var lo, hi := SliceBound(i, |s|), SliceBound(j, |s|);
    if lo < hi then s[lo..hi] else []
  }

  /** `s[:k]` for a non-negative `k`: the first `k` characters, or all of `s`. */
  function Prefix(s: string, k: nat): (r: string)
    ensures |r| <= k && |r| <= |s| && r == s[..|r|]
    ensures |s| <= k ==> r == s
  {
    PySlice(s, 0, k)
  }

  /** `s.startswith(p)`. */
  predicate StartsWith(s: string, p: string) {
    |p| <= |s| && s[..|p|] == p
  }

  function LowerChar(c: char): char {
    if 'A' <= c <= 'Z' then (c as int + 32) as char else c
  }

  /** `s.lower()` on ASCII text. */
  function Lower(s: string): (r: string)
    ensures |r| == |s|
    ensures forall i :: 0 <= i < |s| ==> r[i] == LowerChar(s[i])
  {
    seq(|s|, i requires 0 <= i < |s| => LowerChar(s[i]))
  }

  /** Lower-casing works character by character, so it distributes over
      concatenation. */
  lemma LowerAppend(a: string, b: string)
    ensures Lower(a + b) == Lower(a) + Lower(b)
  {
  }

  /** Text without upper-case ASCII letters is left as it is. */
  lemma LowerUnchanged(s: string)
    requires forall i :: 0 <= i < |s| ==> !('A' <= s[i] <= 'Z')
    ensures Lower(s) == s
  {
  }

  /** `s.replace(a, b)` for single characters. */
  function ReplaceChar(s: string, a: char, b: char): (r: string)
    ensures |r| == |s|
    ensures forall i :: 0 <= i < |s| ==> r[i] == if s[i] == a then b else s[i]
  {
    seq(|s|, i requires 0 <= i < |s| => if s[i] == a then b else s[i])
  }

  /** The characters of `s` for which `keep` holds, in order: a regex
      substitution of a negated character class by the empty string. */
  function Filter(s: string, keep: char -> bool): (r: string)
    ensures |r| <= |s|
    ensures forall c :: c in r <==> c in s && keep(c)
  {
    if s == [] then [] else (if keep(s[0]) then [s[0]] else []) + Filter(s[1..], keep)
  }
}
