/** The two steps of boundary reconciliation that the legal and the meeting
    splitters share: the gated left-to-right scan that accepts a position only
    beyond the last accepted one plus a threshold, and the merge pass in which
    a boundary too close to the previous one overwrites it ("later wins").
    The two splitters differ in one detail of the merge, captured by
    `Overwrite`. */
module Boundaries {
  import opened Ordering

  function Last(s: seq<int>): int
    requires s != []
  {
    s[|s| - 1]
  }

  /** Consecutive elements are at least `gap` apart. */
  predicate Spaced(s: seq<int>, gap: int) {
    forall k :: 0 < k < |s| ==> s[k] - s[k - 1] >= gap
  }

  /** All elements lie in `[lo, hi]`. */
  predicate InRange(s: seq<int>, lo: int, hi: int) {
    forall k :: 0 <= k < |s| ==> lo <= s[k] <= hi
  }

  /** Regular-expression match starts, one list per pattern in pattern
      order, each a position inside the text. */
  predicate MatchesInText(text: string, matches: seq<seq<int>>) {
    forall j, k :: 0 <= j < |matches| && 0 <= k < |matches[j]| ==> 0 <= matches[j][k] < |text|
  }

  /** A sequence whose consecutive elements increase is strictly increasing. */
  lemma {:induction false} ChainIncreasing(s: seq<int>)
    requires forall k :: 0 < k < |s| ==> s[k - 1] < s[k]
    ensures StrictlyIncreasing(s)
  {
    if |s| > 1 {
      ChainIncreasing(s[1..]);
      forall i, j | 0 <= i < j < |s| ensures s[i] < s[j] {
        if 0 < i {
          assert s[1..][i - 1] < s[1..][j - 1];
        } else if 1 < j {
          assert s[1..][0] < s[1..][j - 1];
        }
      }
    }
  }

  // ---------------------------------------------------------------------------
  // The gated scan

  /** Scans `ps` left to right and appends each position that lies beyond
      the last element of `acc` plus `gap` (`if pos > boundaries[-1] + gap:
      boundaries.append(pos)`). Only the last element is ever consulted, so
      the scan keeps `acc` as a prefix. */
  function GateScan(acc: seq<int>, ps: seq<int>, gap: int): (r: seq<int>)
    requires acc != []
    ensures |acc| <= |r| && r[..|acc|] == acc
    decreases |ps|
  {
    if ps == [] then acc
    else
      var next := if ps[0] > Last(acc) + gap then acc + [ps[0]] else acc;
      var r := GateScan(next, ps[1..], gap);
      assert r[..|acc|] == r[..|next|][..|acc|];
      r
  }

  /** The same scan over several position lists in turn, each gated by
      whatever was accepted before it. */
  function GateLists(acc: seq<int>, lists: seq<seq<int>>, gap: int): (r: seq<int>)
    requires acc != []
    ensures |acc| <= |r| && r[..|acc|] == acc
    decreases |lists|
  {
    if lists == [] then acc
    else
      var next := GateScan(acc, lists[0], gap);
      var r := GateLists(next, lists[1..], gap);
      assert r[..|acc|] == r[..|next|][..|acc|];
      r
  }

  /** From index `n` on, every element clears its predecessor by more than
      `gap`. */
  predicate GatedFrom(r: seq<int>, n: nat, gap: int) {
    forall k :: 0 < n <= k < |r| ==> r[k - 1] + gap < r[k]
  }

  /** From index `n` on, every element is one of `ps`. */
  predicate TakenFrom(r: seq<int>, n: nat, ps: seq<int>) {
    forall k :: n <= k < |r| ==> r[k] in ps
  }

  /** Each position the scan accepts is one of `ps` and clears its
      predecessor by more than `gap`. */
  lemma {:induction false} GateScanGated(acc: seq<int>, ps: seq<int>, gap: int)
    requires acc != []
    ensures GatedFrom(GateScan(acc, ps, gap), |acc|, gap)
    ensures TakenFrom(GateScan(acc, ps, gap), |acc|, ps)
    decreases |ps|
  {
    if ps != [] {
      var next := if ps[0] > Last(acc) + gap then acc + [ps[0]] else acc;
      var r := GateScan(next, ps[1..], gap);
      assert r == GateScan(acc, ps, gap);
      GateScanGated(next, ps[1..], gap);
      forall k | |acc| <= k < |r| ensures r[k] in ps && r[k - 1] + gap < r[k] {
        if k < |next| {
          assert k == |acc|;
          assert r[k] == r[..|next|][k] == ps[0];
          assert r[k - 1] == r[..|next|][k - 1] == acc[|acc| - 1];
        } else {
          assert r[k] in ps[1..];
        }
      }
    }
  }

  /** Nothing but `acc` and `ps` ends up in the scan's result. */
  lemma GateScanElements(acc: seq<int>, ps: seq<int>, gap: int)
    requires acc != []
    ensures forall x :: x in GateScan(acc, ps, gap) ==> x in acc || x in ps
  {
    var r := GateScan(acc, ps, gap);
    GateScanGated(acc, ps, gap);
    forall x | x in r ensures x in acc || x in ps {
      var k :| 0 <= k < |r| && r[k] == x;
      if k < |acc| {
        assert r[k] == r[..|acc|][k];
      }
    }
  }

  /** Each position the list scans accept clears its predecessor by more
      than `gap`. */
  lemma {:induction false} GateListsGated(acc: seq<int>, lists: seq<seq<int>>, gap: int)
    requires acc != []
    ensures GatedFrom(GateLists(acc, lists, gap), |acc|, gap)
    decreases |lists|
  {
    if lists != [] {
      var next := GateScan(acc, lists[0], gap);
      var r := GateLists(next, lists[1..], gap);
      GateScanGated(acc, lists[0], gap);
      GateListsGated(next, lists[1..], gap);
      forall k | |acc| <= k < |r| ensures r[k - 1] + gap < r[k] {
        if k < |next| {
          assert r[k] == r[..|next|][k] == next[k];
          assert r[k - 1] == r[..|next|][k - 1] == next[k - 1];
        }
      }
    }
  }

  /** The scans add only positions they were given. */
  lemma GateScanInRange(acc: seq<int>, ps: seq<int>, gap: int, lo: int, hi: int)
    requires acc != [] && InRange(acc, lo, hi) && InRange(ps, lo, hi)
    ensures InRange(GateScan(acc, ps, gap), lo, hi)
  {
    var r := GateScan(acc, ps, gap);
    GateScanGated(acc, ps, gap);
    forall k | 0 <= k < |r| ensures lo <= r[k] <= hi {
      if k < |acc| {
        assert r[k] == r[..|acc|][k];
      }
    }
  }

  lemma {:induction false} GateListsInRange(acc: seq<int>, lists: seq<seq<int>>, gap: int, lo: int, hi: int)
    requires acc != [] && InRange(acc, lo, hi)
    requires forall j :: 0 <= j < |lists| ==> InRange(lists[j], lo, hi)
    ensures InRange(GateLists(acc, lists, gap), lo, hi)
    decreases |lists|
  {
    if lists != [] {
      GateScanInRange(acc, lists[0], gap, lo, hi);
      GateListsInRange(GateScan(acc, lists[0], gap), lists[1..], gap, lo, hi);
    }
  }

  /** The other direction of "only positions it was given": nothing the
      scans produce lies outside the inputs. */
  lemma GateListsElements(acc: seq<int>, lists: seq<seq<int>>, gap: int, x: int)
    requires acc != [] && x in GateLists(acc, lists, gap)
    ensures x in acc || exists j :: 0 <= j < |lists| && x in lists[j]
    decreases |lists|
  {
    if lists != [] {
      var mid := GateScan(acc, lists[0], gap);
      GateScanElements(acc, lists[0], gap);
      GateListsElements(mid, lists[1..], gap, x);
      if x !in mid {
        var j :| 0 <= j < |lists[1..]| && x in lists[1..][j];
        assert x in lists[j + 1];
      }
    }
  }

  /** With a non-negative threshold, a scan that starts from a strictly
      increasing list yields a strictly increasing list. */
  lemma GateListsIncreasing(acc: seq<int>, lists: seq<seq<int>>, gap: int)
    requires acc != [] && StrictlyIncreasing(acc) && 0 <= gap
    ensures StrictlyIncreasing(GateLists(acc, lists, gap))
  {
    var r := GateLists(acc, lists, gap);
    GateListsGated(acc, lists, gap);
    forall k | 0 < k < |r| ensures r[k - 1] < r[k] {
      if k < |acc| {
        assert r[k - 1] == r[..|acc|][k - 1] && r[k] == r[..|acc|][k];
      }
    }
    ChainIncreasing(r);
  }

  lemma GateScanIncreasing(acc: seq<int>, ps: seq<int>, gap: int)
    requires acc != [] && StrictlyIncreasing(acc) && 0 <= gap
    ensures StrictlyIncreasing(GateScan(acc, ps, gap))
  {
    var r := GateScan(acc, ps, gap);
    GateScanGated(acc, ps, gap);
    forall k | 0 < k < |r| ensures r[k - 1] < r[k] {
      if k < |acc| {
        assert r[k - 1] == r[..|acc|][k - 1] && r[k] == r[..|acc|][k];
      }
    }
    ChainIncreasing(r);
  }

  /** The scan as both splitters run it: a loop over `ps` that appends each
      accepted position to `boundaries`. */
  method ScanPositions(boundaries: seq<int>, ps: seq<int>, gap: int) returns (r: seq<int>)
    requires boundaries != []
    ensures r == GateScan(boundaries, ps, gap)
  {
    r := boundaries;
    for k := 0 to |ps|
      invariant r != []
      invariant GateScan(r, ps[k..], gap) == GateScan(boundaries, ps, gap)
    {
      var pos := ps[k];
      if pos > r[|r| - 1] + gap {
        r := r + [pos];
      }
      assert ps[k..][1..] == ps[k + 1..];
    }
    assert ps[|ps|..] == [];
  }

  /** The pattern loop: one scan per pattern's match list, in pattern
      order. */
  method ScanLists(boundaries: seq<int>, lists: seq<seq<int>>, gap: int) returns (r: seq<int>)
    requires boundaries != []
    ensures r == GateLists(boundaries, lists, gap)
  {
    r := boundaries;
    for j := 0 to |lists|
      invariant r != []
      invariant GateLists(r, lists[j..], gap) == GateLists(boundaries, lists, gap)
    {
      assert lists[j..][0] == lists[j] && lists[j..][1..] == lists[j + 1..];
      r := ScanPositions(r, lists[j], gap);
    }
    assert lists[|lists|..] == [];
  }

  // ---------------------------------------------------------------------------
  // The merge pass

  /** What happens to a boundary closer than the threshold to the previous
      one: the legal splitter overwrites only with a strictly later offset
      (`elif b > final_boundaries[-1]`), the meeting splitter always does. */
  datatype Overwrite = WhenLater | Always

  /** One iteration of the merge loop. */
  function MergeStep(fin: seq<int>, b: int, gap: int, rule: Overwrite): (r: seq<int>)
    requires fin != []
    ensures |fin| <= |r| && r[..|fin| - 1] == fin[..|fin| - 1]
  {
    if b - Last(fin) >= gap then fin + [b]
    else if rule == Always || b > Last(fin) then fin[|fin| - 1 := b]
    else fin
  }

  /** The merge loop over the remaining boundaries `rest`. */
  function MergeFrom(fin: seq<int>, rest: seq<int>, gap: int, rule: Overwrite): (r: seq<int>)
    requires fin != []
    ensures |fin| <= |r| && r[..|fin| - 1] == fin[..|fin| - 1]
    decreases |rest|
  {
    if rest == [] then fin
    else MergeFrom(MergeStep(fin, rest[0], gap, rule), rest[1..], gap, rule)
  }

  /** `final_boundaries = [bs[0]]` followed by the merge loop over `bs[1:]`. */
  function Merge(bs: seq<int>, gap: int, rule: Overwrite): seq<int>
    requires bs != []
  {
    MergeFrom([bs[0]], bs[1..], gap, rule)
  }

  /** The merge of three boundaries is two steps. */
  lemma MergeThree(a: int, b: int, c: int, gap: int, rule: Overwrite)
    ensures Merge([a, b, c], gap, rule) == MergeStep(MergeStep([a], b, gap, rule), c, gap, rule)
  {
    var s1 := MergeStep([a], b, gap, rule);
    var s2 := MergeStep(s1, c, gap, rule);
    assert [a, b, c][1..] == [b, c] && [b, c][1..] == [c] && [c][1..] == [];
    assert Merge([a, b, c], gap, rule) == MergeFrom([a], [b, c], gap, rule);
    assert MergeFrom([a], [b, c], gap, rule) == MergeFrom(s1, [c], gap, rule);
    assert MergeFrom(s1, [c], gap, rule) == MergeFrom(s2, [], gap, rule) == s2;
  }

  /** The merge loop as both splitters run it: `final_boundaries` starts
      with the first boundary, and each later one is appended or overwrites
      the last kept one. */
  method MergeBoundaries(bs: seq<int>, gap: int, rule: Overwrite) returns (fin: seq<int>)
    requires bs != []
    ensures fin == Merge(bs, gap, rule)
  {
    fin := [bs[0]];
    for i := 1 to |bs|
      invariant fin != []
      invariant MergeFrom(fin, bs[i..], gap, rule) == Merge(bs, gap, rule)
    {
      var b := bs[i];
      if b - fin[|fin| - 1] >= gap {
        fin := fin + [b];
      } else if rule == Always || b > fin[|fin| - 1] {
        fin := fin[|fin| - 1 := b];
      }
      assert bs[i..][0] == b && bs[i..][1..] == bs[i + 1..];
    }
    assert bs[|bs|..] == [];
  }

  /** The loop's input from here on is sorted and does not go below what has
      been kept so far. */
  predicate SortedAfter(fin: seq<int>, rest: seq<int>)
    requires fin != []
  {
    NonDecreasing(rest) && (rest != [] ==> Last(fin) <= rest[0])
  }

  lemma StepLast(fin: seq<int>, b: int, gap: int, rule: Overwrite)
    requires fin != [] && Last(fin) <= b
    ensures Last(MergeStep(fin, b, gap, rule)) == b
  {
  }

  /** On sorted input the merge ends with the last input boundary: the final
      sentinel is never dropped, whichever overwrite rule applies. */
  lemma {:induction false} MergeKeepsLast(fin: seq<int>, rest: seq<int>, gap: int, rule: Overwrite)
    requires fin != [] && rest != [] && SortedAfter(fin, rest)
    ensures Last(MergeFrom(fin, rest, gap, rule)) == Last(rest)
    decreases |rest|
  {
    var s := MergeStep(fin, rest[0], gap, rule);
    StepLast(fin, rest[0], gap, rule);
    if |rest| > 1 {
      MergeKeepsLast(s, rest[1..], gap, rule);
    }
  }

  /** On sorted input the merge keeps consecutive boundaries at least `gap`
      apart: an overwrite moves the last boundary only further from its
      predecessor. */
  lemma {:induction false} MergeSpaced(fin: seq<int>, rest: seq<int>, gap: int, rule: Overwrite)
    requires fin != [] && SortedAfter(fin, rest) && Spaced(fin, gap)
    ensures Spaced(MergeFrom(fin, rest, gap, rule), gap)
    decreases |rest|
  {
    if rest != [] {
      var s := MergeStep(fin, rest[0], gap, rule);
      StepLast(fin, rest[0], gap, rule);
      assert Spaced(s, gap) by {
        forall k | 0 < k < |s| ensures s[k] - s[k - 1] >= gap {
          if k < |fin| - 1 {
            assert s[k] == s[..|fin| - 1][k] == fin[k];
            assert s[k - 1] == s[..|fin| - 1][k - 1] == fin[k - 1];
          } else if k == |fin| - 1 {
            assert s[k - 1] == s[..|fin| - 1][k - 1] == fin[k - 1];
          }
        }
      }
      MergeSpaced(s, rest[1..], gap, rule);
    }
  }

  /** Every merged boundary is one that was kept so far or still to come. */
  lemma {:induction false} MergeElements(fin: seq<int>, rest: seq<int>, gap: int, rule: Overwrite, x: int)
    requires fin != [] && x in MergeFrom(fin, rest, gap, rule)
    ensures x in fin || x in rest
    decreases |rest|
  {
    if rest != [] {
      var s := MergeStep(fin, rest[0], gap, rule);
      MergeElements(s, rest[1..], gap, rule, x);
      if x in s {
        var k :| 0 <= k < |s| && s[k] == x;
        if k < |fin| - 1 {
          assert s[..|fin| - 1][k] == x;
        }
      }
    }
  }

  /** Each of `rest` is at least `gap` beyond the one before it, the first
      one beyond `prev`. */
  predicate Clears(prev: int, rest: seq<int>, gap: int)
    decreases |rest|
  {
    rest == [] || (rest[0] - prev >= gap && Clears(rest[0], rest[1..], gap))
  }

  /** When every remaining boundary already clears its predecessor by `gap`,
      the merge keeps them all. */
  lemma {:induction false} MergeKeepsAll(fin: seq<int>, rest: seq<int>, gap: int, rule: Overwrite)
    requires fin != [] && Clears(Last(fin), rest, gap)
    ensures MergeFrom(fin, rest, gap, rule) == fin + rest
    decreases |rest|
  {
    if rest != [] {
      assert rest[0] - Last(fin) >= gap && Clears(rest[0], rest[1..], gap);
      var s := fin + [rest[0]];
      assert MergeStep(fin, rest[0], gap, rule) == s;
      assert Last(s) == rest[0];
      MergeKeepsAll(s, rest[1..], gap, rule);
      assert MergeFrom(fin, rest, gap, rule) == MergeFrom(s, rest[1..], gap, rule);
      MoveHead(fin, rest);
    }
  }

  lemma MoveHead(fin: seq<int>, rest: seq<int>)
    requires rest != []
    ensures (fin + [rest[0]]) + rest[1..] == fin + rest
  {
    assert rest == [rest[0]] + rest[1..];
  }

  /** A sorted list clears every threshold of at most 0. */
  lemma {:induction false} SortedClears(prev: int, rest: seq<int>, gap: int)
    requires NonDecreasing(rest) && gap <= 0 && (rest != [] ==> prev <= rest[0])
    ensures Clears(prev, rest, gap)
    decreases |rest|
  {
    if rest != [] {
      SortedClears(rest[0], rest[1..], gap);
    }
  }

  /** The merge loop can be run in two stretches. */
  lemma {:induction false} MergeSplit(fin: seq<int>, xs: seq<int>, ys: seq<int>, gap: int, rule: Overwrite)
    requires fin != []
    ensures MergeFrom(fin, xs + ys, gap, rule) == MergeFrom(MergeFrom(fin, xs, gap, rule), ys, gap, rule)
    decreases |xs|
  {
    if xs != [] {
      assert (xs + ys)[0] == xs[0] && (xs + ys)[1..] == xs[1..] + ys;
      MergeSplit(MergeStep(fin, xs[0], gap, rule), xs[1..], ys, gap, rule);
    } else {
      assert xs + ys == ys;
    }
  }

  /** With a threshold of at most 0, the merge of a sorted list changes
      nothing. */
  lemma MergeNonPositiveGap(bs: seq<int>, gap: int, rule: Overwrite)
    requires bs != [] && NonDecreasing(bs) && gap <= 0
    ensures Merge(bs, gap, rule) == bs
  {
    SortedClears(bs[0], bs[1..], gap);
    MergeKeepsAll([bs[0]], bs[1..], gap, rule);
  }

  /** The first merged boundary is the first input boundary exactly when the
      second input boundary is at least `gap` beyond it; otherwise it is
      overwritten, and the merge starts no earlier than the second input
      boundary. */
  lemma MergeFirst(bs: seq<int>, gap: int, rule: Overwrite)
    requires |bs| >= 2 && StrictlyIncreasing(bs)
    ensures Merge(bs, gap, rule)[0] == bs[0] <==> bs[1] - bs[0] >= gap
    ensures bs[1] - bs[0] < gap ==> Merge(bs, gap, rule)[0] >= bs[1]
  {
    var r := Merge(bs, gap, rule);
    var s := MergeStep([bs[0]], bs[1], gap, rule);
    assert bs[1..][0] == bs[1];
    assert r == MergeFrom(s, bs[2..], gap, rule) by {
      assert bs[1..][1..] == bs[2..];
    }
    if bs[1] - bs[0] >= gap {
      assert s == [bs[0], bs[1]];
      assert r[..1] == s[..1];
    } else {
      assert s == [bs[1]];
      MergeElements(s, bs[2..], gap, rule, r[0]);
      assert r[0] in r;
      if r[0] in bs[2..] {
        var k :| 0 <= k < |bs[2..]| && bs[2..][k] == r[0];
        assert bs[k + 2] == r[0] && bs[1] < bs[k + 2];
      }
    }
  }

  // ---------------------------------------------------------------------------
  // The whole cleanup: sort, deduplicate, append the sentinel, merge

  /** `sorted(list(set(pre)))` followed by the text length `n`, for a list
      that starts at 0 and otherwise holds positions inside the text: the
      merge pass receives a sorted list from 0 to `n`, strictly increasing
      when the text is not empty. */
  lemma SentinelShape(pre: seq<int>, n: nat)
    requires pre != [] && pre[0] == 0
    requires forall x :: x in pre ==> 0 <= x && (x == 0 || x < n)
    ensures var bs := SortedDistinct(pre) + [n];
            |bs| >= 2 && bs[0] == 0 && Last(bs) == n && NonDecreasing(bs)
            && (0 < n ==> StrictlyIncreasing(bs))
  {
    var sd := SortedDistinct(pre);
    var bs := sd + [n];
    assert 0 in sd by { assert pre[0] in pre; }
    var z :| 0 <= z < |sd| && sd[z] == 0;
    assert sd[0] == 0 by {
      assert sd[0] in pre;
      assert sd[0] <= sd[z];
    }
    forall i, j | 0 <= i < j < |bs| ensures bs[i] <= bs[j] && (0 < n ==> bs[i] < bs[j]) {
      if j < |sd| {
        assert bs[i] == sd[i] && bs[j] == sd[j];
      } else {
        assert bs[i] == sd[i] && sd[i] in pre;
      }
    }
  }

  lemma SortedTail(bs: seq<int>)
    requires bs != [] && NonDecreasing(bs)
    ensures SortedAfter([bs[0]], bs[1..])
  {
    forall i, j | 0 <= i < j < |bs[1..]| ensures bs[1..][i] <= bs[1..][j] {
      assert bs[1..][i] == bs[i + 1] && bs[1..][j] == bs[j + 1];
    }
  }

  /** A boundary at or after the last kept one is merged the same way under
      both overwrite rules: they differ only for a boundary equal to the last
      kept one, which `WhenLater` leaves alone and `Always` writes over with
      the same value. */
  lemma StepRulesAgree(fin: seq<int>, b: int, gap: int)
    requires fin != [] && Last(fin) <= b
    ensures MergeStep(fin, b, gap, WhenLater) == MergeStep(fin, b, gap, Always)
  {
    if b - Last(fin) < gap && b == Last(fin) {
      assert fin[|fin| - 1 := b] == fin;
    }
  }

  lemma {:induction false} MergeFromRulesAgree(fin: seq<int>, rest: seq<int>, gap: int)
    requires fin != [] && SortedAfter(fin, rest)
    ensures MergeFrom(fin, rest, gap, WhenLater) == MergeFrom(fin, rest, gap, Always)
    decreases |rest|
  {
    if rest != [] {
      StepRulesAgree(fin, rest[0], gap);
      var s := MergeStep(fin, rest[0], gap, Always);
      StepLast(fin, rest[0], gap, Always);
      MergeFromRulesAgree(s, rest[1..], gap);
    }
  }

  /** On sorted input the legal splitter's rule (overwrite only with a
      strictly later offset) and the meeting splitter's rule (always
      overwrite) give the same merged list. */
  lemma MergeRulesAgree(bs: seq<int>, gap: int)
    requires bs != [] && NonDecreasing(bs)
    ensures Merge(bs, gap, WhenLater) == Merge(bs, gap, Always)
  {
    SortedTail(bs);
    MergeFromRulesAgree([bs[0]], bs[1..], gap);
  }

  /** On sorted input the merged list ends with the last input boundary,
      whatever the threshold and the overwrite rule. */
  lemma MergeEndsAtLast(bs: seq<int>, gap: int, rule: Overwrite)
    requires |bs| >= 2 && NonDecreasing(bs)
    ensures Merge(bs, gap, rule) != [] && Last(Merge(bs, gap, rule)) == Last(bs)
  {
    SortedTail(bs);
    MergeKeepsLast([bs[0]], bs[1..], gap, rule);
    assert Last(bs[1..]) == Last(bs);
  }

  /** On sorted input and with a positive threshold, the merged list strictly
      increases in steps of at least the threshold. */
  lemma MergeStrictlySpaced(bs: seq<int>, gap: int, rule: Overwrite)
    requires bs != [] && NonDecreasing(bs) && 0 < gap
    ensures StrictlyIncreasing(Merge(bs, gap, rule)) && Spaced(Merge(bs, gap, rule), gap)
  {
    SortedTail(bs);
    MergeSpaced([bs[0]], bs[1..], gap, rule);
    ChainIncreasing(Merge(bs, gap, rule));
  }
}
