/** The meeting-transcript splitter: transition lines from the model's
    response, boundary detection over the full transcript, and the numbered
    discussion files. */
module MeetingSplitter {
  import opened Wrappers
  import opened PyStr
  import opened Search
  import opened Ordering
  import opened Boundaries
  import opened Format
  import opened Sections
  import ResponseLines

  // ---------------------------------------------------------------------------
  // Transition lines from a response

  /** The lines kept from the model's response in `get_topic_transitions`:
      stripped, newline-free and longer than five characters; a line is kept
      exactly when its stripped form is that long. */
  function TransitionLines(body: string): (r: seq<string>)
    ensures forall k :: 0 <= k < |r| ==> |r[k]| > 5 && Strip(r[k]) == r[k] && '\n' !in r[k]
    ensures forall x :: x in r <==> x in ResponseLines.StripAll(SplitLines(body)) && |x| > 5
  {
    ResponseLines.CandidateLines(body, 5)
  }

  // ---------------------------------------------------------------------------
  // Boundary detection: `find_topic_boundaries`

  /** `full_text.find(candidate)` for each candidate in order, leaving out
      the ones not found. Each found position is 0 (the empty candidate is
      found there) or lies inside the text. */
  function FoundAt(text: string, candidates: seq<string>): (r: seq<int>)
    ensures |r| <= |candidates|
    ensures forall k :: 0 <= k < |r| ==> 0 <= r[k] && (r[k] == 0 || r[k] < |text|)
  {
    if candidates == [] then []
    else
      var i := Find(text, candidates[0]);
      (if i == -1 then [] else [i]) + FoundAt(text, candidates[1..])
  }

  /** The list before the cleanup: the start 0, then the pattern matches
      gated by the full threshold, then the candidates' first occurrences
      gated by half of it (`min_section//2`, which is Dafny's `/ 2` for a
      divisor of 2). */
  function MeetingPreMerge(text: string, candidates: seq<string>, matches: seq<seq<int>>, gap: int): seq<int> {
    GateScan(GateLists([0], matches, gap), FoundAt(text, candidates), gap / 2)
  }

  /** `sorted(list(set(boundaries)))` followed by `len(full_text)`. */
  function MeetingSentinelled(text: string, candidates: seq<string>, matches: seq<seq<int>>, gap: int): seq<int> {
    SortedDistinct(MeetingPreMerge(text, candidates, matches, gap)) + [|text|]
  }

  /** The boundaries `find_topic_boundaries` returns. The merge always
      overwrites a boundary that is too close to the previous one. */
  function MeetingBoundaries(text: string, candidates: seq<string>, matches: seq<seq<int>>, gap: int): seq<int> {
    Merge(MeetingSentinelled(text, candidates, matches, gap), gap, Always)
  }

  /** `find_topic_boundaries(full_text, candidates, min_section)`, with the
      structural patterns' match starts given as `matches`. */
  method FindTopicBoundaries(text: string, candidates: seq<string>, matches: seq<seq<int>>, gap: int)
    returns (result: seq<int>)
    requires MatchesInText(text, matches)
    ensures result == MeetingBoundaries(text, candidates, matches, gap)
    ensures result != [] && Last(result) == |text|
    ensures 0 < gap ==> StrictlyIncreasing(result) && Spaced(result, gap)
  {
    var boundaries := ScanLists([0], matches, gap);
    ghost var mid := boundaries;
    for i := 0 to |candidates|
      invariant boundaries != []
      invariant GateScan(boundaries, FoundAt(text, candidates[i..]), gap / 2)
                == GateScan(mid, FoundAt(text, candidates), gap / 2)
    {
      var idx := Find(text, candidates[i]);
      assert candidates[i..][0] == candidates[i] && candidates[i..][1..] == candidates[i + 1..];
      ghost var rest := FoundAt(text, candidates[i + 1..]);
      if idx != -1 {
        assert ([idx] + rest)[0] == idx && ([idx] + rest)[1..] == rest;
      } else {
        assert [] + rest == rest;
      }
      if idx != -1 && idx > boundaries[|boundaries| - 1] + gap / 2 {
        boundaries := boundaries + [idx];
      }
    }
    assert candidates[|candidates|..] == [];
    var bs := SortedDistinct(boundaries) + [|text|];
    result := MergeBoundaries(bs, gap, Always);
    MeetingShape(text, candidates, matches, gap);
    MergeEndsAtLast(bs, gap, Always);
    if 0 < gap {
      MergeStrictlySpaced(bs, gap, Always);
    }
  }

  /** The pre-merge list starts with 0 and every entry is 0 or a position
      inside the text; with a non-negative threshold it strictly increases. */
  lemma MeetingPreMergeShape(text: string, candidates: seq<string>, matches: seq<seq<int>>, gap: int)
    requires MatchesInText(text, matches)
    ensures var pre := MeetingPreMerge(text, candidates, matches, gap);
            pre != [] && pre[0] == 0 && forall x :: x in pre ==> 0 <= x && (x == 0 || x < |text|)
    ensures 0 <= gap ==> StrictlyIncreasing(MeetingPreMerge(text, candidates, matches, gap))
  {
    var inner := GateLists([0], matches, gap);
    var found := FoundAt(text, candidates);
    var pre := MeetingPreMerge(text, candidates, matches, gap);
    assert inner[..1] == [0];
    assert pre[..|inner|] == inner;
    assert pre[0] == inner[0];
    GateScanElements(inner, found, gap / 2);
    forall x | x in pre ensures 0 <= x && (x == 0 || x < |text|) {
      if x in inner {
        GateListsElements([0], matches, gap, x);
        if x != 0 {
          var j :| 0 <= j < |matches| && x in matches[j];
        }
      } else {
        assert x in found;
      }
    }
    if 0 <= gap {
      GateListsIncreasing([0], matches, gap);
      GateScanIncreasing(inner, found, gap / 2);
    }
  }

  /** The list the merge pass receives is sorted, starts at 0 and ends with
      the text length; for a non-empty text it is strictly increasing. */
  lemma MeetingShape(text: string, candidates: seq<string>, matches: seq<seq<int>>, gap: int)
    requires MatchesInText(text, matches)
    ensures var bs := MeetingSentinelled(text, candidates, matches, gap);
            |bs| >= 2 && bs[0] == 0 && Last(bs) == |text| && NonDecreasing(bs)
            && (0 < |text| ==> StrictlyIncreasing(bs))
  {
    MeetingPreMergeShape(text, candidates, matches, gap);
    SentinelShape(MeetingPreMerge(text, candidates, matches, gap), |text|);
  }

  /** The start 0 survives exactly when the next boundary the merge receives
      is at least the threshold away. Otherwise it is overwritten, the
      boundaries start at a later offset, and the text before that offset
      belongs to no section. */
  lemma MeetingStart(text: string, candidates: seq<string>, matches: seq<seq<int>>, gap: int)
    requires MatchesInText(text, matches) && 0 < |text|
    ensures var bs := MeetingSentinelled(text, candidates, matches, gap);
            var r := MeetingBoundaries(text, candidates, matches, gap);
            r != [] && |bs| >= 2 && (r[0] == 0 <==> bs[1] >= gap)
    ensures var bs := MeetingSentinelled(text, candidates, matches, gap);
            var r := MeetingBoundaries(text, candidates, matches, gap);
            r != [] && |bs| >= 2 && (r[0] != 0 ==> 0 < bs[1] <= r[0])
  {
    var bs := MeetingSentinelled(text, candidates, matches, gap);
    MeetingShape(text, candidates, matches, gap);
    MergeEndsAtLast(bs, gap, Always);
    MergeFirst(bs, gap, Always);
  }

  /** A worked case of the overwritten start: in a ten-character transcript
      with threshold 4 and no pattern match, a candidate found at offset 3
      passes the half-threshold gate (3 > 0 + 2) but is closer than 4 to the
      start, so it replaces 0 and the first three characters are in no
      section. */
  lemma MeetingOpeningLost()
    ensures MeetingBoundaries("abcdefghij", ["defg"], [], 4) == [3, 10]
  {
    OpeningSentinelled();
    MergeThree(0, 3, 10, 4, Always);
    assert MergeStep([0], 3, 4, Always) == [3];
    assert MergeStep([3], 10, 4, Always) == [3, 10];
  }

  lemma OpeningFound()
    ensures FoundAt("abcdefghij", ["defg"]) == [3]
  {
    var t, p := "abcdefghij", "defg";
    assert t[0] == 'a' && t[1] == 'b' && t[2] == 'c' && p[0] == 'd';
    assert t[3..7] == p;
    forall j | 0 <= j < 3 ensures !OccursAt(t, p, j) {
      StartMismatch(t, p, j);
    }
    FindAt(t, p, 3);
    assert ["defg"][1..] == [];
  }

  lemma OpeningSentinelled()
    ensures MeetingSentinelled("abcdefghij", ["defg"], [], 4) == [0, 3, 10]
  {
    OpeningPreMerge();
    SentinelledIncreasing("abcdefghij", ["defg"], [], 4, [0, 3]);
  }

  lemma SentinelledIncreasing(text: string, candidates: seq<string>, matches: seq<seq<int>>, gap: int, pre: seq<int>)
    requires MeetingPreMerge(text, candidates, matches, gap) == pre && StrictlyIncreasing(pre)
    ensures MeetingSentinelled(text, candidates, matches, gap) == pre + [|text|]
  {
    SortedDistinctOfIncreasing(pre);
  }

  lemma OpeningPreMerge()
    ensures MeetingPreMerge("abcdefghij", ["defg"], [], 4) == [0, 3]
  {
    OpeningFound();
    assert GateLists([0], [], 4) == [0];
  }

  // ---------------------------------------------------------------------------
  // Discussion files: `save_discussions`

  /** The title cleanup: characters other than word characters, whitespace
      and `-` removed, cut to 40 characters, then stripped. What a word
      character is (Unicode `\w`) is left to `wordChar`. */
  function CleanTitle(title: string, wordChar: char -> bool): (r: string)
    ensures |r| <= 40
    ensures forall c :: c in r ==> c in title && (wordChar(c) || IsSpace(c) || c == '-')
  {
    var kept := Filter(title, c => wordChar(c) || IsSpace(c) || c == '-');
    var cut := Prefix(kept, 40);
    StripChars(cut);
    assert forall c :: c in cut ==> c in kept by {
      forall c | c in cut ensures c in kept {
        var i :| 0 <= i < |cut| && cut[i] == c;
        assert kept[i] == c;
      }
    }
    Strip(cut)
  }

  /** `discussion_NNN.txt`, the name of a discussion without a title. */
  function DefaultName(number: nat): string {
    "discussion_" + Pad3(number) + ".txt"
  }

  /** `NNN_<title>.txt`, the name of a discussion with cleaned title
      `title`. */
  function TitledName(number: nat, title: string): string {
    Pad3(number) + "_" + title + ".txt"
  }

  /** The name of discussion `number` (counted from 1): `discussion_NNN.txt`
      by default, `NNN_<clean title>.txt` when the title search found a
      title. */
  function DiscussionName(number: nat, title: Option<string>, wordChar: char -> bool): string {
    match title
    case None => DefaultName(number)
    case Some(t) => TitledName(number, CleanTitle(t, wordChar))
  }

  /** Discussions with different numbers get different names, with or
      without titles: a default name starts with a letter and a titled one
      with a digit, and within each kind the number is read off unambiguously
      before its separator. */
  lemma DiscussionNamesDistinct(a: nat, b: nat, ta: Option<string>, tb: Option<string>, wordChar: char -> bool)
    requires a != b
    ensures DiscussionName(a, ta, wordChar) != DiscussionName(b, tb, wordChar)
  {
    if ta.None? && tb.None? {
      DefaultNamesApart(a, b);
    } else if ta.Some? && tb.Some? {
      TitledNamesApart(a, b, CleanTitle(ta.value, wordChar), CleanTitle(tb.value, wordChar));
    } else if ta.Some? {
      DefaultNotTitled(b, a, CleanTitle(ta.value, wordChar));
    } else {
      DefaultNotTitled(a, b, CleanTitle(tb.value, wordChar));
    }
  }

  lemma DefaultNamesApart(a: nat, b: nat)
    requires a != b
    ensures DefaultName(a) != DefaultName(b)
  {
    var pa, pb := Pad3(a), Pad3(b);
    Pad3Apart(a, b);
    var prefix := "discussion_";
    var na, nb := DefaultName(a), DefaultName(b);
    assert na == prefix + (pa + ['.'] + "txt");
    assert nb == prefix + (pb + ['.'] + "txt");
    if na == nb {
      assert pa + ['.'] + "txt" == na[|prefix|..] == pb + ['.'] + "txt";
      DigitsBeforeSeparator(pa, pb, '.', "txt", "txt");
    }
  }

  lemma TitledNamesApart(a: nat, b: nat, s: string, t: string)
    requires a != b
    ensures TitledName(a, s) != TitledName(b, t)
  {
    var pa, pb := Pad3(a), Pad3(b);
    Pad3Apart(a, b);
    var na, nb := TitledName(a, s), TitledName(b, t);
    assert na == pa + ['_'] + (s + ".txt");
    assert nb == pb + ['_'] + (t + ".txt");
    if na == nb {
      DigitsBeforeSeparator(pa, pb, '_', s + ".txt", t + ".txt");
    }
  }

  lemma DefaultNotTitled(a: nat, b: nat, t: string)
    ensures DefaultName(a) != TitledName(b, t)
  {
    var n, m := DefaultName(a), TitledName(b, t);
    assert n == "discussion_" + (Pad3(a) + ".txt");
    assert m == Pad3(b) + ("_" + t + ".txt");
    assert n[0] == 'd' && IsDigit(m[0]);
  }

  lemma Pad3Apart(a: nat, b: nat)
    requires a != b
    ensures Pad3(a) != Pad3(b)
  {
    if Pad3(a) == Pad3(b) {
      Pad3Injective(a, b);
    }
  }

  /** The naming scheme of `save_discussions`, as a function of the
      discussion number and the discussion text. `titleOf` stands for the
      title search `(Presentation|Topic|Agenda Item)[:\s]+(.+?)\n` over the
      text: its second group, or nothing. */
  function DiscussionNaming(titleOf: string -> Option<string>, wordChar: char -> bool): (nat, string) -> string {
    (number: nat, section: string) => DiscussionName(number, titleOf(section), wordChar)
  }

  /** The file written for section `i`. */
  function DiscussionFile(text: string, boundaries: seq<int>, i: nat, titleOf: string -> Option<string>, wordChar: char -> bool): OutputFile
    requires i + 1 < |boundaries|
  {
    var section := SectionText(text, boundaries, i);
    OutputFile(DiscussionName(i + 1, titleOf(section), wordChar), section)
  }

  lemma DiscussionNamesApart(titleOf: string -> Option<string>, wordChar: char -> bool)
    ensures NumberedApart(DiscussionNaming(titleOf, wordChar))
  {
    var name := DiscussionNaming(titleOf, wordChar);
    forall a: nat, b: nat, s: string, t: string | a != b
      ensures name(a, s) != name(b, t)
    {
      DiscussionNamesDistinct(a, b, titleOf(s), titleOf(t), wordChar);
    }
  }

  /** `save_discussions(full_text, boundaries, output_dir)` without the
      writes: the files in the order they are written. `written` holds the
      section index of each file: exactly the sections that are not blank
      once stripped, in order. A section without a title is named
      `discussion_NNN.txt` after its number, and no two files share a
      name. */
  method SaveDiscussions(text: string, boundaries: seq<int>, titleOf: string -> Option<string>, wordChar: char -> bool)
    returns (files: seq<OutputFile>, ghost written: seq<nat>)
    ensures |written| == |files| && StrictlyIncreasing(written)
    ensures forall k :: 0 <= k < |files| ==>
              written[k] + 1 < |boundaries| && files[k] == DiscussionFile(text, boundaries, written[k], titleOf, wordChar)
    ensures forall i :: 0 <= i < |boundaries| - 1 ==> (i in written <==> SectionText(text, boundaries, i) != [])
    ensures forall k :: 0 <= k < |files| && titleOf(files[k].content) == None ==>
              files[k].name == "discussion_" + Pad3(written[k] + 1) + ".txt"
    ensures forall k, l :: 0 <= k < l < |files| ==> files[k].name != files[l].name
  {
    DiscussionNamesApart(titleOf, wordChar);
    files, written := WriteNonBlank(SectionTexts(text, boundaries), DiscussionNaming(titleOf, wordChar));
  }
}
