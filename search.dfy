/** Literal substring search: Python's `str.find` and the matches that
    `re.finditer(re.escape(p), s)` yields for a non-empty literal `p`. */
module Search {

  /** `p` occurs in `s` starting at index `i`. */
  predicate OccursAt(s: string, p: string, i: int) {
    0 <= i && i + |p| <= |s| && s[i..i + |p|] == p
  }

  /** `s.find(p, start)`: the first index at or after `start` where `p`
      occurs, or -1 when there is none. */
  function FindFrom(s: string, p: string, start: nat): (r: int)
    ensures r == -1 || (start <= r && OccursAt(s, p, r))
    ensures forall i :: start <= i && (r == -1 || i < r) ==> !OccursAt(s, p, i)
    decreases |s| + 1 - start
  {
    if start + |p| > |s| then -1
    else if s[start..start + |p|] == p then start
    else FindFrom(s, p, start + 1)
  }

  /** `s.find(p)`. */
  function Find(s: string, p: string): (r: int)
    ensures r == -1 || (OccursAt(s, p, r) && r + |p| <= |s|)
    ensures r == -1 <==> forall i :: !OccursAt(s, p, i)
    ensures forall i :: 0 <= i < r ==> !OccursAt(s, p, i)
  {
    FindFrom(s, p, 0)
  }

  /** A position where `p` occurs, with no occurrence before it, is what
      `s.find(p)` returns. */
  lemma FindAt(s: string, p: string, i: int)
    requires OccursAt(s, p, i) && forall j :: 0 <= j < i ==> !OccursAt(s, p, j)
    ensures Find(s, p) == i
  {
  }

  /** `p` does not occur where its first character is not. */
  lemma StartMismatch(s: string, p: string, i: int)
    requires 0 <= i < |s| && p != [] && s[i] != p[0]
    ensures !OccursAt(s, p, i)
  {
    if i + |p| <= |s| {
      assert s[i..i + |p|][0] != p[0];
    }
  }

  /** The start positions of the matches of a non-empty literal `p` in `s`,
      scanning from `start`: each match is the first occurrence at or after
      the end of the previous one. */
  function Occurrences(s: string, p: string, start: nat): (r: seq<nat>)
    requires p != []
    ensures forall k :: 0 <= k < |r| ==> start <= r[k] && OccursAt(s, p, r[k])
    ensures forall k :: 0 <= k < |r| - 1 ==> r[k] + |p| <= r[k + 1]
    decreases |s| + 1 - start
  {
    var i := FindFrom(s, p, start);
    if i == -1 then [] else [i] + Occurrences(s, p, i + |p|)
  }

  /** The matches come in increasing order and never overlap, and every
      occurrence at or after `start` is either a match or overlaps one: the
      scan misses nothing it could have taken. */
  lemma {:induction false} OccurrencesComplete(s: string, p: string, start: nat, i: int) returns (k: nat)
    requires p != [] && start <= i && OccursAt(s, p, i)
    ensures k < |Occurrences(s, p, start)|
    ensures Occurrences(s, p, start)[k] <= i < Occurrences(s, p, start)[k] + |p|
    decreases |s| + 1 - start
  {
    var r := Occurrences(s, p, start);
    var j := FindFrom(s, p, start);
    assert j != -1 && j <= i;
    var rest := Occurrences(s, p, j + |p|);
    assert r == [j] + rest;
    if i < j + |p| {
      k := 0;
      assert r[k] == j;
    } else {
      var k' := OccurrencesComplete(s, p, j + |p|, i);
      k := k' + 1;
      assert k < |r| && r[k] == rest[k'];
    }
  }

  /** A match ends inside the text, so it starts before the end of it. */
  lemma OccurrencesBelow(s: string, p: string, start: nat)
    requires p != []
    ensures forall k :: 0 <= k < |Occurrences(s, p, start)| ==> Occurrences(s, p, start)[k] < |s|
  {
  }
}
