/** What the legal and the meeting splitters write: one file per pair of
    consecutive boundaries whose text is not blank after stripping. The
    writes themselves are not modelled; a written file is its name and its
    content. */
module Sections {
  import opened PyStr
  import opened Ordering

  datatype OutputFile = OutputFile(name: string, content: string)

  /** `full_text[boundaries[i]:boundaries[i+1]].strip()`. */
  function SectionText(text: string, boundaries: seq<int>, i: nat): (r: string)
    requires i + 1 < |boundaries|
    ensures |r| <= |text|
    ensures r == [] <==> AllSpace(PySlice(text, boundaries[i], boundaries[i + 1]))
  {
    var piece := PySlice(text, boundaries[i], boundaries[i + 1]);
    StripEmptyIff(piece);
    Strip(piece)
  }

  /** The stripped text of every section, in order: one fewer than there
      are boundaries. */
  function SectionTexts(text: string, boundaries: seq<int>): (r: seq<string>)
    ensures |boundaries| <= 1 ==> r == []
    ensures 1 < |boundaries| ==> |r| == |boundaries| - 1
    ensures forall i :: 0 <= i < |r| ==> r[i] == SectionText(text, boundaries, i)
  {
    if |boundaries| <= 1 then []
    else seq(|boundaries| - 1, i requires 0 <= i < |boundaries| - 1 => SectionText(text, boundaries, i))
  }

  /** A naming scheme that gives sections with different numbers different
      names, whatever their texts. */
  ghost predicate NumberedApart(name: (nat, string) -> string) {
    forall a: nat, b: nat, s: string, t: string :: a != b ==> name(a, s) != name(b, t)
  }

  /** The loop both savers share: for each section `i` in order, if it is
      not blank, write it under the name `name(i + 1, section)`. `written`
      holds the section index of each file: exactly the non-blank sections,
      in increasing order. Under a naming scheme that keeps numbers apart,
      no file overwrites another. */
  method WriteNonBlank(sections: seq<string>, name: (nat, string) -> string)
    returns (files: seq<OutputFile>, ghost written: seq<nat>)
    ensures |written| == |files| && StrictlyIncreasing(written)
    ensures forall k :: 0 <= k < |files| ==>
              written[k] < |sections| && files[k] == OutputFile(name(written[k] + 1, sections[written[k]]), sections[written[k]])
    ensures forall i :: 0 <= i < |sections| ==> (i in written <==> sections[i] != [])
    ensures NumberedApart(name) ==> forall k, l :: 0 <= k < l < |files| ==> files[k].name != files[l].name
  {
    files, written := [], [];
    for i := 0 to |sections|
      invariant |written| == |files| && StrictlyIncreasing(written)
      invariant forall k :: 0 <= k < |files| ==>
                  written[k] < i && files[k] == OutputFile(name(written[k] + 1, sections[written[k]]), sections[written[k]])
      invariant forall j :: 0 <= j < i ==> (j in written <==> sections[j] != [])
    {
      var section := sections[i];
      if section != [] {
        files, written := files + [OutputFile(name(i + 1, section), section)], written + [i];
      }
    }
    if NumberedApart(name) {
      forall k, l | 0 <= k < l < |files| ensures files[k].name != files[l].name {
        assert written[k] < written[l];
      }
    }
  }
}
