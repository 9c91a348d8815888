/** The legal-document splitter: candidate headings from the model's
    response, boundary detection over the full text, heading extraction and
    the numbered section files. */
module LegalSplitter {
  import opened PyStr
  import opened Search
  import opened Ordering
  import opened Boundaries
  import opened Format
  import opened Sections
  import ResponseLines

  // ---------------------------------------------------------------------------
  // Candidate lines from a response

  /** The lines kept from the model's response in `get_legal_boundaries`:
      stripped, newline-free and longer than two characters; a line is kept
      exactly when its stripped form is that long. */
  function BoundaryLines(body: string): (r: seq<string>)
    ensures forall k :: 0 <= k < |r| ==> |r[k]| > 2 && Strip(r[k]) == r[k] && '\n' !in r[k]
    ensures forall x :: x in r <==> x in ResponseLines.StripAll(SplitLines(body)) && |x| > 2
  {
    ResponseLines.CandidateLines(body, 2)
  }

  // ---------------------------------------------------------------------------
  // Candidate order: `sorted(set(candidates), key=len, reverse=True)`

  predicate NoDuplicates(s: seq<string>) {
    forall i, j :: 0 <= i < j < |s| ==> s[i] != s[j]
  }

  predicate LengthDescending(s: seq<string>) {
    forall i, j :: 0 <= i < j < |s| ==> |s[i]| >= |s[j]|
  }

  /** `ordered` is an arrangement of the distinct candidates, longest first.
      Among equal lengths the order is that of Python's `set` iteration,
      which the model leaves open: every property below holds for any such
      arrangement. */
  ghost predicate LongestFirstOrder(ordered: seq<string>, candidates: seq<string>) {
    NoDuplicates(ordered) && LengthDescending(ordered) && forall c :: c in ordered <==> c in candidates
  }

  /** Inserts `x` before the first strictly shorter string. */
  function InsertByLength(x: string, s: seq<string>): (r: seq<string>)
    requires LengthDescending(s)
    ensures LengthDescending(r)
    ensures forall c :: c in r <==> c in s || c == x
    ensures x !in s && NoDuplicates(s) ==> NoDuplicates(r)
  {
    if s == [] || |x| >= |s[0]| then
      InsertAtHead(x, s);
      [x] + s
    else
      TailDescending(s);
      var rest := InsertByLength(x, s[1..]);
      InsertAfterHead(x, s, rest);
      [s[0]] + rest
  }

  lemma InsertAtHead(x: string, s: seq<string>)
    requires LengthDescending(s) && (s == [] || |x| >= |s[0]|)
    ensures LengthDescending([x] + s)
    ensures x !in s && NoDuplicates(s) ==> NoDuplicates([x] + s)
  {
    ConsNoDuplicates(x, s);
    forall e | e in s ensures |x| >= |e| {
      var j :| 0 <= j < |s| && s[j] == e;
      assert |s[0]| >= |s[j]|;
    }
    ConsDescending(x, s);
  }

  lemma TailDescending(s: seq<string>)
    requires LengthDescending(s) && s != []
    ensures LengthDescending(s[1..])
  {
    forall i, j | 0 <= i < j < |s[1..]| ensures |s[1..][i]| >= |s[1..][j]| {
      assert s[1..][i] == s[i + 1] && s[1..][j] == s[j + 1];
    }
  }

  /** Keeping the head in front of the insertion into the tail. */
  lemma InsertAfterHead(x: string, s: seq<string>, rest: seq<string>)
    requires s != [] && |x| < |s[0]| && LengthDescending(s)
    requires LengthDescending(rest) && forall c :: c in rest <==> c in s[1..] || c == x
    requires x !in s[1..] && NoDuplicates(s[1..]) ==> NoDuplicates(rest)
    ensures LengthDescending([s[0]] + rest)
    ensures forall c :: c in [s[0]] + rest <==> c in s || c == x
    ensures x !in s && NoDuplicates(s) ==> NoDuplicates([s[0]] + rest)
  {
    assert s == [s[0]] + s[1..];
    HeadLongest(s);
    HeadNotRepeated(s);
    assert NoDuplicates(s) ==> NoDuplicates(s[1..]) by {
      if NoDuplicates(s) {
        forall i, j | 0 <= i < j < |s[1..]| ensures s[1..][i] != s[1..][j] {
          assert s[1..][i] == s[i + 1] && s[1..][j] == s[j + 1];
        }
      }
    }
    ConsNoDuplicates(s[0], rest);
    ConsDescending(s[0], rest);
  }

  /** A string at least as long as every element of a longest-first list
      can go in front of it. */
  lemma ConsDescending(a: string, t: seq<string>)
    requires LengthDescending(t) && forall e :: e in t ==> |a| >= |e|
    ensures LengthDescending([a] + t)
  {
    var r := [a] + t;
    forall i, j | 0 <= i < j < |r| ensures |r[i]| >= |r[j]| {
      assert r[j] == t[j - 1] && t[j - 1] in t;
      if i > 0 {
        assert r[i] == t[i - 1];
      }
    }
  }

  lemma ConsNoDuplicates(a: string, t: seq<string>)
    ensures a !in t && NoDuplicates(t) ==> NoDuplicates([a] + t)
  {
    if a !in t && NoDuplicates(t) {
      forall i, j | 0 <= i < j < |[a] + t| ensures ([a] + t)[i] != ([a] + t)[j] {
        assert ([a] + t)[j] == t[j - 1];
        if i > 0 {
          assert ([a] + t)[i] == t[i - 1];
        }
      }
    }
  }

  lemma HeadLongest(s: seq<string>)
    requires LengthDescending(s) && s != []
    ensures forall e :: e in s[1..] ==> |s[0]| >= |e|
  {
    forall e | e in s[1..] ensures |s[0]| >= |e| {
      var j :| 0 <= j < |s[1..]| && s[1..][j] == e;
      assert s[j + 1] == e;
    }
  }

  lemma HeadNotRepeated(s: seq<string>)
    requires s != []
    ensures NoDuplicates(s) ==> s[0] !in s[1..]
  {
    forall j | 0 <= j < |s[1..]| && NoDuplicates(s) ensures s[1..][j] != s[0] {
      assert s[1..][j] == s[j + 1];
    }
  }

  /** One arrangement of the distinct candidates, longest first: the one
      the model's boundary detection uses. */
  function LongestFirst(candidates: seq<string>): (r: seq<string>)
    ensures LongestFirstOrder(r, candidates)
  {
    if candidates == [] then []
    else
      var rest := LongestFirst(candidates[1..]);
      assert candidates == [candidates[0]] + candidates[1..];
      if candidates[0] in rest then rest else InsertByLength(candidates[0], rest)
  }

  // ---------------------------------------------------------------------------
  // Boundary detection: `find_legal_boundaries`

  /** The match starts `re.finditer(re.escape(c), full_text)` yields for one
      candidate; the empty candidate is skipped and yields none. */
  function CandidateHits(text: string, c: string): (r: seq<int>)
    ensures forall k :: 0 <= k < |r| ==> 0 <= r[k] < |text|
  {
    if c == [] then [] else Occurrences(text, c, 0)
  }

  function AllHits(text: string, ordered: seq<string>): (r: seq<seq<int>>)
    ensures |r| == |ordered| && forall k :: 0 <= k < |ordered| ==> r[k] == CandidateHits(text, ordered[k])
  {
    seq(|ordered|, k requires 0 <= k < |ordered| => CandidateHits(text, ordered[k]))
  }

  /** The list before the final cleanup: the start 0, then the gated
      candidate occurrences, then the gated heading-pattern matches. */
  function PreMerge(text: string, ordered: seq<string>, matches: seq<seq<int>>, gap: int): seq<int> {
    GateLists(GateLists([0], AllHits(text, ordered), gap), matches, gap)
  }

  /** `sorted(list(set(boundaries)))` followed by `len(full_text)`. */
  function Sentinelled(text: string, ordered: seq<string>, matches: seq<seq<int>>, gap: int): seq<int> {
    SortedDistinct(PreMerge(text, ordered, matches, gap)) + [|text|]
  }

  /** The boundaries `find_legal_boundaries` returns when the candidates are
      taken in the order `ordered`. */
  function LegalBoundaries(text: string, ordered: seq<string>, matches: seq<seq<int>>, gap: int): seq<int> {
    Merge(Sentinelled(text, ordered, matches, gap), gap, WhenLater)
  }

  /** `find_legal_boundaries(full_text, candidates, min_section_length)`,
      with the heading patterns' match starts given as `matches`. */
  method FindLegalBoundaries(text: string, candidates: seq<string>, matches: seq<seq<int>>, gap: int)
    returns (result: seq<int>)
    requires MatchesInText(text, matches)
    ensures result == LegalBoundaries(text, LongestFirst(candidates), matches, gap)
    ensures result != [] && Last(result) == |text|
    ensures 0 < gap ==> StrictlyIncreasing(result) && Spaced(result, gap)
  {
    var ordered := LongestFirst(candidates);
    ghost var hits := AllHits(text, ordered);
    var boundaries := [0];
    for i := 0 to |ordered|
      invariant boundaries != []
      invariant GateLists(boundaries, hits[i..], gap) == GateLists([0], hits, gap)
    {
      var candidate := ordered[i];
      assert hits[i..][0] == hits[i] && hits[i..][1..] == hits[i + 1..];
      if candidate == [] {
        continue;
      }
      var found := Occurrences(text, candidate, 0);
      boundaries := ScanPositions(boundaries, found, gap);
    }
    assert hits[|ordered|..] == [];
    boundaries := ScanLists(boundaries, matches, gap);
    var bs := SortedDistinct(boundaries) + [|text|];
    result := MergeBoundaries(bs, gap, WhenLater);
    LegalEndsAtLength(text, ordered, matches, gap);
    if 0 < gap {
      LegalSpaced(text, ordered, matches, gap);
    }
  }

  /** The pre-merge list starts with 0, every later entry clears its
      predecessor by more than the threshold, and every entry is 0 or a
      position inside the text. */
  lemma PreMergeShape(text: string, ordered: seq<string>, matches: seq<seq<int>>, gap: int)
    requires MatchesInText(text, matches)
    ensures var pre := PreMerge(text, ordered, matches, gap);
            |pre| >= 1 && pre[0] == 0
            && (forall k :: 0 < k < |pre| ==> pre[k - 1] + gap < pre[k])
            && forall x :: x in pre ==> 0 <= x && (x == 0 || x < |text|)
  {
    var hits := AllHits(text, ordered);
    var inner := GateLists([0], hits, gap);
    var pre := PreMerge(text, ordered, matches, gap);
    assert pre[..|inner|] == inner;
    assert pre[0] == inner[..1][0] == 0;
    GateListsGated([0], hits, gap);
    GateListsGated(inner, matches, gap);
    forall k | 0 < k < |pre| ensures pre[k - 1] + gap < pre[k] {
      if k < |inner| {
        assert pre[k - 1] == inner[k - 1] && pre[k] == inner[k];
      }
    }
    forall x | x in pre ensures 0 <= x && (x == 0 || x < |text|) {
      GateListsElements(inner, matches, gap, x);
      if x in inner {
        GateListsElements([0], hits, gap, x);
        if x != 0 {
          var j :| 0 <= j < |hits| && x in hits[j];
        }
      } else {
        var j :| 0 <= j < |matches| && x in matches[j];
      }
    }
  }

  /** The list the merge pass receives is sorted, starts at 0 and ends with
      the text length; for a non-empty text it is strictly increasing. */
  lemma SentinelledShape(text: string, ordered: seq<string>, matches: seq<seq<int>>, gap: int)
    requires MatchesInText(text, matches)
    ensures var bs := Sentinelled(text, ordered, matches, gap);
            |bs| >= 2 && bs[0] == 0 && Last(bs) == |text| && NonDecreasing(bs)
            && (0 < |text| ==> StrictlyIncreasing(bs))
  {
    PreMergeShape(text, ordered, matches, gap);
    SentinelShape(PreMerge(text, ordered, matches, gap), |text|);
  }

  /** The last boundary is always the text length. */
  lemma LegalEndsAtLength(text: string, ordered: seq<string>, matches: seq<seq<int>>, gap: int)
    requires MatchesInText(text, matches)
    ensures var r := LegalBoundaries(text, ordered, matches, gap);
            r != [] && Last(r) == |text|
  {
    SentinelledShape(text, ordered, matches, gap);
    MergeEndsAtLast(Sentinelled(text, ordered, matches, gap), gap, WhenLater);
  }

  /** With a positive threshold the boundaries strictly increase and
      consecutive ones are at least the threshold apart. */
  lemma LegalSpaced(text: string, ordered: seq<string>, matches: seq<seq<int>>, gap: int)
    requires MatchesInText(text, matches) && 0 < gap
    ensures var r := LegalBoundaries(text, ordered, matches, gap);
            StrictlyIncreasing(r) && Spaced(r, gap)
  {
    SentinelledShape(text, ordered, matches, gap);
    MergeStrictlySpaced(Sentinelled(text, ordered, matches, gap), gap, WhenLater);
  }

  /** With a non-negative threshold the pre-merge list is already strictly
      increasing, so the sort and de-duplication change nothing. */
  lemma LegalPreMergeSorted(text: string, ordered: seq<string>, matches: seq<seq<int>>, gap: int)
    requires 0 <= gap
    ensures var pre := PreMerge(text, ordered, matches, gap);
            StrictlyIncreasing(pre) && SortedDistinct(pre) == pre
  {
    var inner := GateLists([0], AllHits(text, ordered), gap);
    GateListsIncreasing([0], AllHits(text, ordered), gap);
    GateListsIncreasing(inner, matches, gap);
    SortedDistinctOfIncreasing(PreMerge(text, ordered, matches, gap));
  }

  /** The boundaries start at 0 except in one case: nothing was accepted
      before the cleanup and the text is non-empty but shorter than the
      threshold. Then the start is overwritten by the text length and the
      result is that single boundary, which leaves no section to write. */
  lemma LegalStart(text: string, ordered: seq<string>, matches: seq<seq<int>>, gap: int)
    requires MatchesInText(text, matches)
    ensures var r := LegalBoundaries(text, ordered, matches, gap);
            r != [] && (r[0] != 0 <==> PreMerge(text, ordered, matches, gap) == [0] && 0 < |text| < gap)
    ensures var r := LegalBoundaries(text, ordered, matches, gap);
            r != [] && (r[0] != 0 ==> r == [|text|])
  {
    var n := |text|;
    var pre := PreMerge(text, ordered, matches, gap);
    var bs := Sentinelled(text, ordered, matches, gap);
    var r := LegalBoundaries(text, ordered, matches, gap);
    PreMergeShape(text, ordered, matches, gap);
    SentinelledShape(text, ordered, matches, gap);
    if n == 0 {
      StrictlyIncreasingUnique(SortedDistinct(pre), [0]);
      assert bs == [0, 0];
      assert bs[1..] == [0] && bs[1..][1..] == [];
      assert r == MergeStep([0], 0, gap, WhenLater);
    } else {
      MergeFirst(bs, gap, WhenLater);
      if 0 <= gap {
        LegalPreMergeSorted(text, ordered, matches, gap);
        if |pre| >= 2 {
          assert bs[1] == pre[1];
        } else {
          assert pre == [0];
          assert bs == [0, n];
          if n < gap {
            assert bs[1..] == [n] && bs[1..][1..] == [];
            assert r == MergeFrom([0], [n], gap, WhenLater);
            assert MergeStep([0], n, gap, WhenLater) == [n];
          }
        }
      }
    }
  }

  /** Every boundary is the text length or an entry of the pre-merge list. */
  lemma LegalElements(text: string, ordered: seq<string>, matches: seq<seq<int>>, gap: int, x: int)
    requires x in LegalBoundaries(text, ordered, matches, gap)
    ensures x == |text| || x in PreMerge(text, ordered, matches, gap)
  {
    var bs := Sentinelled(text, ordered, matches, gap);
    MergeElements([bs[0]], bs[1..], gap, WhenLater, x);
    assert x in bs by {
      if x !in [bs[0]] {
        var k :| 0 <= k < |bs[1..]| && bs[1..][k] == x;
        assert bs[k + 1] == x;
      }
    }
  }

  // ---------------------------------------------------------------------------
  // Headings: `extract_heading`

  /** `[a-zA-Z0-9 \-_]`: the characters a heading keeps. */
  predicate IsHeadingChar(c: char) {
    'a' <= c <= 'z' || 'A' <= c <= 'Z' || '0' <= c <= '9' || c == ' ' || c == '-' || c == '_'
  }

  /** Drops the leading run of `#`. */
  function DropHashes(s: string): (r: string)
    ensures |r| <= |s| && r == s[|s| - |r|..]
    ensures r == [] || r[0] != '#'
    ensures forall i :: 0 <= i < |s| - |r| ==> s[i] == '#'
  {
    if s != [] && s[0] == '#' then DropHashes(s[1..]) else s
  }

  /** `s` starts with the lower-case ASCII word `word`, ignoring ASCII case. */
  predicate StartsWithIgnoreCase(s: string, word: string) {
    |word| <= |s| && Lower(s[..|word|]) == word
  }

  /** A stripped line that names a section: a Markdown heading, or one that
      starts with ARTICLE, SECTION or CLAUSE in any case. */
  predicate Qualifies(line: string) {
    StartsWith(line, "#")
    || StartsWithIgnoreCase(line, "article")
    || StartsWithIgnoreCase(line, "section")
    || StartsWithIgnoreCase(line, "clause")
  }

  /** The heading taken from a qualifying stripped line: a Markdown heading
      loses its hashes and the blanks after them, every character outside
      the heading set, and its surrounding blanks; a keyword line loses only
      the characters outside the heading set. Either is cut to 50
      characters. */
  function HeadingFromLine(line: string): (r: string)
    requires Qualifies(line)
    ensures |r| <= 50 && forall c :: c in r ==> IsHeadingChar(c)
  {
    if StartsWith(line, "#") then
      var kept := Filter(TrimLeft(DropHashes(line)), IsHeadingChar);
      StripChars(kept);
      Prefix(Strip(kept), 50)
    else
      Prefix(Filter(line, IsHeadingChar), 50)
  }

  /** The first-match search over the lines of a section. */
  function HeadingOf(lines: seq<string>): (r: string)
    ensures |r| <= 50 && forall c :: c in r ==> IsHeadingChar(c)
  {
    if lines == [] then "section"
    else if Qualifies(Strip(lines[0])) then HeadingFromLine(Strip(lines[0]))
    else HeadingOf(lines[1..])
  }

  /** `extract_heading(section_text)`: at most 50 characters, all from the
      heading set. */
  function ExtractHeading(section: string): (r: string)
    ensures |r| <= 50 && forall c :: c in r ==> IsHeadingChar(c)
  {
    HeadingOf(SplitLines(section))
  }

  /** The heading comes from the first line that qualifies once stripped. */
  lemma {:induction false} HeadingOfFirst(lines: seq<string>, k: nat)
    requires k < |lines| && Qualifies(Strip(lines[k]))
    requires forall j :: 0 <= j < k ==> !Qualifies(Strip(lines[j]))
    ensures HeadingOf(lines) == HeadingFromLine(Strip(lines[k]))
  {
    if k > 0 {
      assert !Qualifies(Strip(lines[0]));
      HeadingOfFirst(lines[1..], k - 1);
    }
  }

  /** When no line qualifies, the heading is the literal `section`. */
  lemma {:induction false} HeadingOfNone(lines: seq<string>)
    requires forall j :: 0 <= j < |lines| ==> !Qualifies(Strip(lines[j]))
    ensures HeadingOf(lines) == "section"
  {
    if lines != [] {
      assert !Qualifies(Strip(lines[0]));
      HeadingOfNone(lines[1..]);
    }
  }

  /** When no stripped line of the section qualifies, the heading is the
      literal `section`. */
  lemma ExtractHeadingDefault(section: string)
    requires forall j :: 0 <= j < |SplitLines(section)| ==> !Qualifies(Strip(SplitLines(section)[j]))
    ensures ExtractHeading(section) == "section"
  {
    HeadingOfNone(SplitLines(section));
  }

  /** Otherwise the heading is taken from the first qualifying line. */
  lemma ExtractHeadingFirst(section: string, k: nat)
    requires k < |SplitLines(section)| && Qualifies(Strip(SplitLines(section)[k]))
    requires forall j :: 0 <= j < k ==> !Qualifies(Strip(SplitLines(section)[j]))
    ensures ExtractHeading(section) == HeadingFromLine(Strip(SplitLines(section)[k]))
  {
    HeadingOfFirst(SplitLines(section), k);
  }

  // ---------------------------------------------------------------------------
  // Section files: `save_legal_sections`

  /** `f"{number:03d}_{heading.replace(' ', '_')}.md".lower()`: the number,
      an underscore, the lower-cased heading with its blanks turned into
      underscores, and the `.md` suffix. */
  function LegalFileName(number: nat, heading: string): (r: string)
    ensures |r| == |Pad3(number)| + 1 + |heading| + 3
    ensures r[..|Pad3(number)| + 1] == Pad3(number) + "_"
    ensures r[|Pad3(number)| + 1..|r| - 3] == Lower(ReplaceChar(heading, ' ', '_'))
    ensures r[|r| - 3..] == ".md"
    ensures ' ' !in r
  {
    var p, h := Pad3(number), ReplaceChar(heading, ' ', '_');
    LowerNameParts(p, h);
    NoBlankAfterReplace(heading);
    NoBlankInDigits(p);
    Lower(p + "_" + h + ".md")
  }

  /** Lower-casing leaves the digits, the underscore and the suffix alone. */
  lemma LowerNameParts(p: string, h: string)
    requires AllDigits(p)
    ensures Lower(p + "_" + h + ".md") == p + "_" + Lower(h) + ".md"
  {
    LowerAppend(p + "_" + h, ".md");
    LowerAppend(p + "_", h);
    LowerAppend(p, "_");
    LowerUnchanged(p);
    LowerUnchanged("_");
    LowerUnchanged(".md");
  }

  lemma NoBlankAfterReplace(heading: string)
    ensures ' ' !in Lower(ReplaceChar(heading, ' ', '_'))
  {
    var h := ReplaceChar(heading, ' ', '_');
    forall i | 0 <= i < |h| ensures Lower(h)[i] != ' ' {
      assert h[i] != ' ';
    }
  }

  lemma NoBlankInDigits(p: string)
    requires AllDigits(p)
    ensures ' ' !in p
  {
    forall i | 0 <= i < |p| ensures p[i] != ' ' {
      assert IsDigit(p[i]);
    }
  }

  /** Sections with different numbers get different file names, so no file
      overwrites another. */
  lemma LegalFileNamesDistinct(a: nat, b: nat, ha: string, hb: string)
    requires a != b
    ensures LegalFileName(a, ha) != LegalFileName(b, hb)
  {
    var ra, rb := LegalFileName(a, ha), LegalFileName(b, hb);
    if ra == rb {
      var pa, pb := Pad3(a), Pad3(b);
      assert ra == pa + ['_'] + ra[|pa| + 1..] by {
        assert ra[..|pa| + 1] == pa + "_";
        assert ra == ra[..|pa| + 1] + ra[|pa| + 1..];
      }
      assert rb == pb + ['_'] + rb[|pb| + 1..] by {
        assert rb[..|pb| + 1] == pb + "_";
        assert rb == rb[..|pb| + 1] + rb[|pb| + 1..];
      }
      DigitsBeforeSeparator(pa, pb, '_', ra[|pa| + 1..], rb[|pb| + 1..]);
      Pad3Injective(a, b);
    }
  }

  /** The name `save_legal_sections` gives section number `number` (counted
      from 1) with text `section`. */
  function LegalSectionName(number: nat, section: string): string {
    LegalFileName(number, ExtractHeading(section))
  }

  /** The file written for section `i`. */
  function LegalFile(text: string, boundaries: seq<int>, i: nat): OutputFile
    requires i + 1 < |boundaries|
  {
    var section := SectionText(text, boundaries, i);
    OutputFile(LegalSectionName(i + 1, section), section)
  }

  lemma LegalNamesApart()
    ensures NumberedApart(LegalSectionName)
  {
    forall a: nat, b: nat, s: string, t: string | a != b
      ensures LegalSectionName(a, s) != LegalSectionName(b, t)
    {
      LegalFileNamesDistinct(a, b, ExtractHeading(s), ExtractHeading(t));
    }
  }

  /** `save_legal_sections(full_text, boundaries, output_dir)` without the
      writes: the files in the order they are written. `written` holds the
      section index of each file: exactly the sections that are not blank
      once stripped, in order. No two files share a name, so none is
      overwritten. */
  method SaveLegalSections(text: string, boundaries: seq<int>) returns (files: seq<OutputFile>, ghost written: seq<nat>)
    ensures |written| == |files| && StrictlyIncreasing(written)
    ensures forall k :: 0 <= k < |files| ==>
              written[k] + 1 < |boundaries| && files[k] == LegalFile(text, boundaries, written[k])
    ensures forall i :: 0 <= i < |boundaries| - 1 ==> (i in written <==> SectionText(text, boundaries, i) != [])
    ensures forall k, l :: 0 <= k < l < |files| ==> files[k].name != files[l].name
  {
    LegalNamesApart();
    files, written := WriteNonBlank(SectionTexts(text, boundaries), LegalSectionName);
  }
}
