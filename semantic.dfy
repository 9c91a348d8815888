/** The semantic splitter: candidate phrases from the model become split
    offsets just after their first occurrence, and the sorted offsets are
    walked with a cursor that cuts the transcript into numbered sections. */
module SemanticSplitter {
  import opened PyStr
  import opened Search
  import opened Ordering
  import opened Format

  // ---------------------------------------------------------------------------
  // Split resolution: `find_valid_splits`

  /** The offset just after the first occurrence of `candidate`, or nothing
      when it does not occur. */
  function SplitAfter(text: string, candidate: string): (r: int)
    ensures r == -1 || (Find(text, candidate) != -1 && r == Find(text, candidate) + |candidate|)
    ensures r == -1 <==> Find(text, candidate) == -1
    ensures r != -1 ==> |candidate| <= r <= |text|
  {
    var idx := Find(text, candidate);
    if idx == -1 then -1 else idx + |candidate|
  }

  /** The `splits` list before deduplication: one offset per found
      candidate, in candidate order. */
  function ResolvedSplits(text: string, candidates: seq<string>): (r: seq<int>)
    ensures |r| <= |candidates|
    ensures forall x :: x in r ==> 0 <= x <= |text|
  {
    if candidates == [] then []
    else
      var x := SplitAfter(text, candidates[0]);
      (if x == -1 then [] else [x]) + ResolvedSplits(text, candidates[1..])
  }

  /** An offset is resolved exactly when it is the end offset of a
      candidate that occurs. */
  lemma {:induction false} ResolvedSplitsMembers(text: string, candidates: seq<string>)
    ensures forall x :: x in ResolvedSplits(text, candidates) <==>
              exists c :: c in candidates && SplitAfter(text, c) == x && x != -1
  {
    if candidates != [] {
      ResolvedSplitsMembers(text, candidates[1..]);
      assert forall c :: c in candidates <==> c == candidates[0] || c in candidates[1..];
    }
  }

  /** `find_valid_splits(full_text, candidates)` as the source runs it: a
      loop that appends each found candidate's end offset, then
      `sorted(list(set(splits)))`. */
  method FindValidSplits(text: string, candidates: seq<string>) returns (r: seq<int>)
    ensures r == ValidSplits(text, candidates)
    ensures StrictlyIncreasing(r)
    ensures forall x :: x in r ==> 0 <= x <= |text|
  {
    var splits := [];
    for i := 0 to |candidates|
      invariant splits + ResolvedSplits(text, candidates[i..]) == ResolvedSplits(text, candidates)
    {
      var idx := Find(text, candidates[i]);
      assert candidates[i..][0] == candidates[i] && candidates[i..][1..] == candidates[i + 1..];
      ghost var rest := ResolvedSplits(text, candidates[i + 1..]);
      if idx != -1 {
        assert ResolvedSplits(text, candidates[i..]) == [idx + |candidates[i]|] + rest;
        splits := splits + [idx + |candidates[i]|];
      } else {
        assert ResolvedSplits(text, candidates[i..]) == rest;
      }
    }
    assert candidates[|candidates|..] == [];
    assert splits + [] == splits;
    r := SortedDistinct(splits);
    ValidSplitsBounded(text, candidates);
  }

  /** The split offsets `find_valid_splits` returns. */
  function ValidSplits(text: string, candidates: seq<string>): seq<int> {
    SortedDistinct(ResolvedSplits(text, candidates))
  }

  /** The offsets are strictly increasing, so free of duplicates, and each
      lies in `[0, len(full_text)]`. */
  lemma ValidSplitsBounded(text: string, candidates: seq<string>)
    ensures StrictlyIncreasing(ValidSplits(text, candidates))
    ensures forall x :: x in ValidSplits(text, candidates) ==> 0 <= x <= |text|
  {
  }

  /** An offset is a split exactly when some candidate occurs in the text
      and the offset is the end of that candidate's first occurrence. */
  lemma ValidSplitsMembers(text: string, candidates: seq<string>, x: int)
    ensures x in ValidSplits(text, candidates) <==>
            exists c :: c in candidates && Find(text, c) != -1 && x == Find(text, c) + |c|
  {
    ResolvedSplitsMembers(text, candidates);
    if x in ValidSplits(text, candidates) {
      var c :| c in candidates && SplitAfter(text, c) == x && x != -1;
      assert Find(text, c) != -1 && x == Find(text, c) + |c|;
    }
    if exists c :: c in candidates && Find(text, c) != -1 && x == Find(text, c) + |c| {
      var c :| c in candidates && Find(text, c) != -1 && x == Find(text, c) + |c|;
      assert SplitAfter(text, c) == x && x != -1;
    }
  }

  /** A candidate that does not occur in the text adds no split. */
  lemma MissingCandidateIgnored(text: string, candidates: seq<string>, c: string)
    requires Find(text, c) == -1
    ensures ValidSplits(text, candidates + [c]) == ValidSplits(text, candidates)
  {
    var cs := candidates + [c];
    ResolvedSplitsMembers(text, cs);
    ResolvedSplitsMembers(text, candidates);
    forall x ensures x in ResolvedSplits(text, cs) <==> x in ResolvedSplits(text, candidates) {
      if x in ResolvedSplits(text, cs) {
        var d :| d in cs && SplitAfter(text, d) == x && x != -1;
        assert d in candidates;
      }
      if x in ResolvedSplits(text, candidates) {
        var d :| d in candidates && SplitAfter(text, d) == x && x != -1;
        assert d in cs;
      }
    }
    SortedDistinctOfSameElements(ResolvedSplits(text, cs), ResolvedSplits(text, candidates));
  }

  /** The splits depend only on which candidates were proposed, not on
      their order or how often each was proposed. */
  lemma ValidSplitsOfSameCandidates(text: string, a: seq<string>, b: seq<string>)
    requires forall c :: c in a <==> c in b
    ensures ValidSplits(text, a) == ValidSplits(text, b)
  {
    ResolvedSplitsMembers(text, a);
    ResolvedSplitsMembers(text, b);
    forall x ensures x in ResolvedSplits(text, a) <==> x in ResolvedSplits(text, b) {
      if x in ResolvedSplits(text, a) {
        var d :| d in a && SplitAfter(text, d) == x && x != -1;
        assert d in b;
      }
      if x in ResolvedSplits(text, b) {
        var d :| d in b && SplitAfter(text, d) == x && x != -1;
        assert d in a;
      }
    }
    SortedDistinctOfSameElements(ResolvedSplits(text, a), ResolvedSplits(text, b));
  }

  /** The empty phrase is found at 0 and ends there, so it yields the split
      offset 0, the smallest one. */
  lemma EmptyCandidateSplitsAtZero(text: string, candidates: seq<string>)
    requires [] in candidates
    ensures var r := ValidSplits(text, candidates); r != [] && r[0] == 0
  {
    assert OccursAt(text, [], 0);
    assert SplitAfter(text, []) == 0;
    ResolvedSplitsMembers(text, candidates);
    var r := ValidSplits(text, candidates);
    assert 0 in r;
    ValidSplitsBounded(text, candidates);
    var k :| 0 <= k < |r| && r[k] == 0;
    assert r[0] <= r[k] && r[0] in r;
  }

  // ---------------------------------------------------------------------------
  // The section walk: `save_sections`

  /** A cut the walk makes: file number `number`, text from `start` to
      `end` (`full_text[start:end]`, before stripping). */
  datatype Section = Section(number: nat, start: int, end: int)

  /** The stripped text of a section. */
  function Content(text: string, s: Section): string {
    Strip(PySlice(text, s.start, s.end))
  }

  /** The name `section_NNN.txt` of file number `n`. */
  function SectionFileName(n: nat): string {
    "section_" + Pad3(n) + ".txt"
  }

  /** The cuts the loop over `pts[i..]` makes from cursor `prev`, blank or
      not: a point at or before the cursor is skipped, any other point cuts
      a piece numbered by its index plus one and moves the cursor to it. */
  function Pieces(pts: seq<int>, i: nat, prev: int): seq<Section>
    requires i <= |pts|
    decreases |pts| - i
  {
    if i == |pts| then []
    else if pts[i] <= prev then Pieces(pts, i + 1, prev)
    else [Section(i + 1, prev, pts[i])] + Pieces(pts, i + 1, pts[i])
  }

  /** Where the cursor stands after the loop over `pts[i..]`. */
  function Cursor(pts: seq<int>, i: nat, prev: int): int
    requires i <= |pts|
    decreases |pts| - i
  {
    if i == |pts| then prev
    else if pts[i] <= prev then Cursor(pts, i + 1, prev)
    else Cursor(pts, i + 1, pts[i])
  }

  /** Every cut of a walk over `pts` (sorted first), followed by the
      remainder from the final cursor to the end, numbered `len(pts) + 1`. */
  function AllPieces(text: string, points: seq<int>): seq<Section> {
    var pts := Sort(points);
    Pieces(pts, 0, 0) + [Section(|pts| + 1, Cursor(pts, 0, 0), |text|)]
  }

  /** The test a piece must pass to be written: it is not blank after
      stripping. */
  function NotBlank(text: string): Section -> bool {
    s => Content(text, s) != []
  }

  /** The pieces that pass `keep`, in order. */
  function Keep(ps: seq<Section>, keep: Section -> bool): (r: seq<Section>)
    ensures |r| <= |ps|
  {
    if ps == [] then []
    else (if keep(ps[0]) then [ps[0]] else []) + Keep(ps[1..], keep)
  }

  lemma {:induction false} KeepMembers(ps: seq<Section>, keep: Section -> bool)
    ensures forall s :: s in Keep(ps, keep) <==> s in ps && keep(s)
  {
    if ps != [] {
      KeepMembers(ps[1..], keep);
      assert forall s :: s in ps <==> s == ps[0] || s in ps[1..];
    }
  }

  /** The sections `save_sections` writes, in order. */
  function WrittenSections(text: string, points: seq<int>): seq<Section> {
    Keep(AllPieces(text, points), NotBlank(text))
  }

  /** `save_sections(full_text, split_points, output_dir)` without the
      writes: the sections in the order they are written, each as its file
      number and the bounds of its unstripped text. */
  method SaveSections(text: string, splitPoints: seq<int>) returns (written: seq<Section>)
    ensures written == WrittenSections(text, splitPoints)
    ensures forall k, l :: 0 <= k < l < |written| ==> written[k].number < written[l].number
  {
    var pts := Sort(splitPoints);
    var prev;
    written, prev := WalkPoints(text, pts);
    var last := Section(|pts| + 1, prev, |text|);
    var finalSection := Content(text, last);
    if finalSection != [] {
      KeepLast(Pieces(pts, 0, 0), last, NotBlank(text));
      written := written + [last];
    } else {
      KeepLast(Pieces(pts, 0, 0), last, NotBlank(text));
    }
    WrittenNumbersIncrease(text, splitPoints);
  }

  /** The loop of `save_sections` over the sorted points: the non-blank
      cuts it writes, and where the cursor ends. */
  method WalkPoints(text: string, pts: seq<int>) returns (written: seq<Section>, prev: int)
    ensures written == Keep(Pieces(pts, 0, 0), NotBlank(text))
    ensures prev == Cursor(pts, 0, 0)
  {
    ghost var keep := NotBlank(text);
    prev := 0;
    written := [];
    assert written + Keep(Pieces(pts, 0, prev), keep) == Keep(Pieces(pts, 0, 0), keep);
    for i := 0 to |pts|
      invariant WalkedSoFar(pts, i, prev, written, keep)
    {
      var pos := pts[i];
      if pos <= prev {
        WalkSkip(pts, i, prev, written, keep);
        continue;
      }
      var section := Content(text, Section(i + 1, prev, pos));
      if section != [] {
        WalkCutKept(pts, i, prev, written, keep);
        written := written + [Section(i + 1, prev, pos)];
      } else {
        WalkCutDropped(pts, i, prev, written, keep);
      }
      prev := pos;
    }
    assert written + [] == written;
  }

  /** The loop invariant of the walk: what is written so far, followed by
      what the rest of the walk writes, is what the whole walk writes, and
      the rest of the walk ends where the whole walk does. */
  ghost predicate WalkedSoFar(pts: seq<int>, i: nat, prev: int, written: seq<Section>, keep: Section -> bool)
    requires i <= |pts|
  {
    written + Keep(Pieces(pts, i, prev), keep) == Keep(Pieces(pts, 0, 0), keep)
    && Cursor(pts, i, prev) == Cursor(pts, 0, 0)
  }

  /** A point at or before the cursor leaves the walk unchanged. */
  lemma WalkSkip(pts: seq<int>, i: nat, prev: int, written: seq<Section>, keep: Section -> bool)
    requires i < |pts| && pts[i] <= prev && WalkedSoFar(pts, i, prev, written, keep)
    ensures WalkedSoFar(pts, i + 1, prev, written, keep)
  {
  }

  /** A point past the cursor cuts a piece and moves the cursor to it; a
      piece that passes `keep` is written. */
  lemma WalkCutKept(pts: seq<int>, i: nat, prev: int, written: seq<Section>, keep: Section -> bool)
    requires i < |pts| && pts[i] > prev && WalkedSoFar(pts, i, prev, written, keep)
    requires keep(Section(i + 1, prev, pts[i]))
    ensures WalkedSoFar(pts, i + 1, pts[i], written + [Section(i + 1, prev, pts[i])], keep)
  {
    var cut := Section(i + 1, prev, pts[i]);
    var later := Keep(Pieces(pts, i + 1, pts[i]), keep);
    CutStep(pts, i, prev, keep);
    assert written + ([cut] + later) == (written + [cut]) + later;
  }

  /** A piece that fails `keep` is not written, yet the cursor still moves
      past it. */
  lemma WalkCutDropped(pts: seq<int>, i: nat, prev: int, written: seq<Section>, keep: Section -> bool)
    requires i < |pts| && pts[i] > prev && WalkedSoFar(pts, i, prev, written, keep)
    requires !keep(Section(i + 1, prev, pts[i]))
    ensures WalkedSoFar(pts, i + 1, pts[i], written, keep)
  {
    var later := Keep(Pieces(pts, i + 1, pts[i]), keep);
    CutStep(pts, i, prev, keep);
    assert [] + later == later;
  }

  lemma CutStep(pts: seq<int>, i: nat, prev: int, keep: Section -> bool)
    requires i < |pts| && pts[i] > prev
    ensures var cut := Section(i + 1, prev, pts[i]);
            Keep(Pieces(pts, i, prev), keep)
            == (if keep(cut) then [cut] else []) + Keep(Pieces(pts, i + 1, pts[i]), keep)
  {
    var rest := Pieces(pts, i + 1, pts[i]);
    assert ([Section(i + 1, prev, pts[i])] + rest)[1..] == rest;
  }

  /** The remainder is written after the loop's pieces when it passes
      `keep`. */
  lemma KeepLast(ps: seq<Section>, last: Section, keep: Section -> bool)
    ensures keep(last) ==> Keep(ps + [last], keep) == Keep(ps, keep) + [last]
    ensures !keep(last) ==> Keep(ps + [last], keep) == Keep(ps, keep)
  {
    KeepAppend(ps, [last], keep);
    assert [last][1..] == [];
    assert Keep(ps, keep) + [] == Keep(ps, keep);
  }

  lemma {:induction false} KeepAppend(a: seq<Section>, b: seq<Section>, keep: Section -> bool)
    ensures Keep(a + b, keep) == Keep(a, keep) + Keep(b, keep)
  {
    if a == [] {
      assert a + b == b;
    } else {
      var head := if keep(a[0]) then [a[0]] else [];
      assert (a + b)[0] == a[0] && (a + b)[1..] == a[1..] + b;
      assert Keep(a + b, keep) == head + Keep(a[1..] + b, keep);
      assert Keep(a, keep) == head + Keep(a[1..], keep);
      KeepAppend(a[1..], b, keep);
      assert head + (Keep(a[1..], keep) + Keep(b, keep)) == (head + Keep(a[1..], keep)) + Keep(b, keep);
    }
  }

  /** The cursor walk strictly advances: the pieces of a walk from `prev`
      chain one after another from `prev` to the final cursor, each ending
      strictly after it starts. */
  predicate Walked(ps: seq<Section>, from: int, to: int) {
    if ps == [] then from == to
    else ps[0].start == from < ps[0].end && Walked(ps[1..], ps[0].end, to)
  }

  predicate NumbersIncrease(ps: seq<Section>) {
    forall k, l :: 0 <= k < l < |ps| ==> ps[k].number < ps[l].number
  }

  /** The loop's cuts chain from the cursor to the final cursor, are
      numbered by index within `(i, len(pts)]` in increasing order, and
      the cursor never moves back. */
  lemma {:induction false} PiecesWalk(pts: seq<int>, i: nat, prev: int)
    requires i <= |pts|
    ensures Walked(Pieces(pts, i, prev), prev, Cursor(pts, i, prev))
    ensures forall s :: s in Pieces(pts, i, prev) ==> i < s.number <= |pts|
    ensures NumbersIncrease(Pieces(pts, i, prev))
    ensures prev <= Cursor(pts, i, prev)
    decreases |pts| - i
  {
    if i < |pts| {
      if pts[i] <= prev {
        PiecesWalk(pts, i + 1, prev);
      } else {
        PiecesWalk(pts, i + 1, pts[i]);
        var rest := Pieces(pts, i + 1, pts[i]);
        var ps := [Section(i + 1, prev, pts[i])] + rest;
        assert ps[1..] == rest;
        forall k, l | 0 <= k < l < |ps| ensures ps[k].number < ps[l].number {
          if k == 0 {
            assert ps[l] in rest;
          } else {
            assert ps[k] == rest[k - 1] && ps[l] == rest[l - 1];
          }
        }
      }
    }
  }

  /** The cursor ends at `prev` or at one of the points. */
  lemma {:induction false} CursorIsPoint(pts: seq<int>, i: nat, prev: int)
    requires i <= |pts|
    ensures Cursor(pts, i, prev) == prev || Cursor(pts, i, prev) in pts[i..]
    decreases |pts| - i
  {
    if i < |pts| {
      if pts[i] <= prev {
        CursorIsPoint(pts, i + 1, prev);
      } else {
        CursorIsPoint(pts, i + 1, pts[i]);
      }
      assert pts[i..] == [pts[i]] + pts[i + 1..];
    }
  }

  lemma SortedWithin(points: seq<int>, n: int)
    requires forall x :: x in points ==> x <= n
    ensures forall x :: x in Sort(points) ==> x <= n
  {
    forall x | x in Sort(points) ensures x <= n {
      assert x in multiset(Sort(points));
      assert multiset(Sort(points)) == multiset(points);
      assert x in multiset(points);
      assert x in points;
    }
  }

  /** The unstripped texts of a chain of pieces. */
  function Joined(text: string, ps: seq<Section>): string {
    if ps == [] then [] else PySlice(text, ps[0].start, ps[0].end) + Joined(text, ps[1..])
  }

  lemma {:induction false} WalkedJoin(text: string, ps: seq<Section>, from: int, to: int)
    requires Walked(ps, from, to) && 0 <= from && to <= |text|
    ensures from <= to && Joined(text, ps) == text[from..to]
  {
    if ps != [] {
      WalkedJoin(text, ps[1..], ps[0].end, to);
      assert text[from..to] == text[from..ps[0].end] + text[ps[0].end..to];
    }
  }

  /** Nothing is lost or repeated: for split points inside the text, the
      unstripped pieces followed by the remainder spell out the whole
      text. */
  lemma PiecesConcatenate(text: string, points: seq<int>)
    requires forall x :: x in points ==> x <= |text|
    ensures Joined(text, AllPieces(text, points)) == text
  {
    var pts := Sort(points);
    SortedWithin(points, |text|);
    PiecesWalk(pts, 0, 0);
    CursorIsPoint(pts, 0, 0);
    assert pts[0..] == pts;
    WalkThenRest(text, Pieces(pts, 0, 0), Cursor(pts, 0, 0), |pts| + 1);
  }

  /** A walk from 0 to `cur`, then the rest of the text from `cur`, spells
      out the text. */
  lemma WalkThenRest(text: string, ps: seq<Section>, cur: int, number: nat)
    requires Walked(ps, 0, cur) && cur <= |text|
    ensures Joined(text, ps + [Section(number, cur, |text|)]) == text
  {
    var last := Section(number, cur, |text|);
    WalkedJoin(text, ps, 0, cur);
    JoinedAppend(text, ps, [last]);
    JoinedRest(text, last);
    SplitAt(text, cur);
  }

  lemma SplitAt(s: string, i: nat)
    requires i <= |s|
    ensures s[..i] + s[i..] == s
  {
  }

  lemma JoinedRest(text: string, last: Section)
    requires 0 <= last.start <= |text| && last.end == |text|
    ensures Joined(text, [last]) == text[last.start..]
  {
    assert [last][1..] == [];
    assert PySlice(text, last.start, |text|) == text[last.start..];
    assert text[last.start..] + [] == text[last.start..];
  }

  lemma {:induction false} JoinedAppend(text: string, a: seq<Section>, b: seq<Section>)
    ensures Joined(text, a + b) == Joined(text, a) + Joined(text, b)
  {
    if a == [] {
      assert a + b == b;
    } else {
      assert (a + b)[0] == a[0] && (a + b)[1..] == a[1..] + b;
      JoinedAppend(text, a[1..], b);
    }
  }

  /** The written sections have increasing file numbers, so no two share a
      number: the loop's cuts are numbered within `[1, len(split_points)]`
      and the remainder is `len(split_points) + 1`. */
  lemma WrittenNumbersIncrease(text: string, points: seq<int>)
    ensures NumbersIncrease(WrittenSections(text, points))
  {
    var pts := Sort(points);
    var ps := Pieces(pts, 0, 0);
    var all := AllPieces(text, points);
    PiecesWalk(pts, 0, 0);
    assert all == ps + [Section(|pts| + 1, Cursor(pts, 0, 0), |text|)];
    forall k, l | 0 <= k < l < |all| ensures all[k].number < all[l].number {
      if l < |ps| {
        assert all[k] == ps[k] && all[l] == ps[l];
      } else {
        assert all[k] == ps[k] && all[k] in ps;
      }
    }
    KeepKeepsOrder(all, NotBlank(text));
  }

  lemma {:induction false} KeepKeepsOrder(ps: seq<Section>, keep: Section -> bool)
    requires NumbersIncrease(ps)
    ensures NumbersIncrease(Keep(ps, keep))
  {
    if ps != [] {
      var rest := Keep(ps[1..], keep);
      KeepKeepsOrder(ps[1..], keep);
      KeepMembers(ps[1..], keep);
      var r := Keep(ps, keep);
      if keep(ps[0]) {
        assert r == [ps[0]] + rest;
        forall k, l | 0 <= k < l < |r| ensures r[k].number < r[l].number {
          if k == 0 {
            assert r[l] in rest && r[l] in ps[1..];
            var j :| 0 <= j < |ps[1..]| && ps[1..][j] == r[l];
            assert ps[j + 1] == r[l];
          } else {
            assert r[k] == rest[k - 1] && r[l] == rest[l - 1];
          }
        }
      }
    }
  }

  /** Sections with different numbers get different file names. */
  lemma SectionFileNamesApart(a: nat, b: nat)
    requires a != b
    ensures SectionFileName(a) != SectionFileName(b)
  {
    var pa, pb := Pad3(a), Pad3(b);
    var prefix := "section_";
    assert SectionFileName(a) == prefix + (pa + ['.'] + "txt");
    assert SectionFileName(b) == prefix + (pb + ['.'] + "txt");
    if SectionFileName(a) == SectionFileName(b) {
      assert pa + ['.'] + "txt" == SectionFileName(a)[|prefix|..] == pb + ['.'] + "txt";
      DigitsBeforeSeparator(pa, pb, '.', "txt", "txt");
      Pad3Injective(a, b);
    }
  }

  /** A split point at 0 never cuts: the cursor starts at 0, every cut ends
      strictly after the cursor, and the cursor never moves back. In
      particular the split the empty phrase yields is skipped. */
  lemma ZeroNeverCuts(text: string, points: seq<int>)
    ensures forall s :: s in Pieces(Sort(points), 0, 0) ==> 0 <= s.start < s.end
  {
    PiecesWalk(Sort(points), 0, 0);
    WalkedAfter(Pieces(Sort(points), 0, 0), 0, Cursor(Sort(points), 0, 0));
  }

  lemma {:induction false} WalkedAfter(ps: seq<Section>, from: int, to: int)
    requires Walked(ps, from, to)
    ensures forall s :: s in ps ==> from <= s.start < s.end
  {
    if ps != [] {
      WalkedAfter(ps[1..], ps[0].end, to);
      assert forall s :: s in ps ==> s == ps[0] || s in ps[1..];
    }
  }

  /** A blank piece is not written, yet the cursor moves past it: the
      written sections are exactly the non-blank pieces of the walk, and
      the walk's pieces (blank or not) are the cuts that chain from 0. */
  lemma WrittenExactlyNonBlank(text: string, points: seq<int>)
    ensures forall s :: s in WrittenSections(text, points) <==>
              s in AllPieces(text, points) && Content(text, s) != []
    ensures Walked(Pieces(Sort(points), 0, 0), 0, Cursor(Sort(points), 0, 0))
  {
    PiecesWalk(Sort(points), 0, 0);
    KeepMembers(AllPieces(text, points), NotBlank(text));
  }
}
