/** The windowing chunker `split_text`, identical in the three splitters
    except for its default sizes (5000/1000 legal, 4000/800 meeting,
    3000/500 semantic): overlapping windows of `chunkSize` characters whose
    starts are `chunkSize - overlap` apart. */
module Windowing {
  import opened PyStr

  /** Where window `k` starts: `k` strides of `chunkSize - overlap`. */
  function WindowStart(chunkSize: int, overlap: int, k: nat): nat
    requires overlap < chunkSize
  {
    k * (chunkSize - overlap)
  }

  /** Window `k`: the slice `text[k*stride : k*stride + chunkSize]`, clipped
      to the text as Python slicing clips it. */
  function Window(text: string, chunkSize: int, overlap: int, k: nat): string
    requires overlap < chunkSize
  {
    var start := WindowStart(chunkSize, overlap, k);
    PySlice(text, start, start + chunkSize)
  }

  /** `split_text(text, chunk_size, overlap)`. An empty text gives no
      chunk whatever the sizes, since the loop condition fails at once. For a
      non-empty text the loop advances only when `chunkSize > overlap`, and
      otherwise the source never returns; then the result is exactly the
      windows whose start lies inside the text. */
  method SplitText(text: string, chunkSize: int, overlap: int) returns (chunks: seq<string>)
    requires overlap < chunkSize || |text| == 0
    ensures |text| == 0 ==> chunks == []
    ensures 0 < |text| ==> forall k :: 0 <= k < |chunks| ==>
              chunks[k] == Window(text, chunkSize, overlap, k) && WindowStart(chunkSize, overlap, k) < |text|
    ensures 0 < |text| ==> |text| <= WindowStart(chunkSize, overlap, |chunks|)
  {
    chunks := [];
    var start := 0;
    while start < |text|
      invariant |text| == 0 ==> chunks == []
      invariant 0 < |text| ==> start == WindowStart(chunkSize, overlap, |chunks|)
      invariant 0 < |text| ==> forall k :: 0 <= k < |chunks| ==>
                  chunks[k] == Window(text, chunkSize, overlap, k) && WindowStart(chunkSize, overlap, k) < |text|
      decreases |text| - start
    {
      NextStart(chunkSize, overlap, |chunks|);
      var end := start + chunkSize;
      chunks := chunks + [PySlice(text, start, end)];
      start := start + (chunkSize - overlap);
    }
  }

  /** With a positive size, every window that starts inside the text is a
      non-empty run of at most `chunkSize` characters taken from that start. */
  lemma WindowShape(text: string, chunkSize: int, overlap: int, k: nat)
    requires overlap < chunkSize && 0 < chunkSize
    requires WindowStart(chunkSize, overlap, k) < |text|
    ensures 0 < |Window(text, chunkSize, overlap, k)| <= chunkSize
    ensures var start := WindowStart(chunkSize, overlap, k);
            Window(text, chunkSize, overlap, k) == text[start..ClippedEnd(start, chunkSize, |text|)]
  {
    SliceFrom(text, WindowStart(chunkSize, overlap, k), chunkSize);
  }

  /** A slice of positive length starting inside the text is the run up to
      its end or the end of the text. */
  lemma SliceFrom(text: string, start: int, size: int)
    requires 0 <= start < |text| && 0 < size
    ensures 0 < |PySlice(text, start, start + size)| <= size
    ensures PySlice(text, start, start + size) == text[start..ClippedEnd(start, size, |text|)]
  {
  }

  function ClippedEnd(start: int, chunkSize: int, n: nat): int {
    if start + chunkSize < n then start + chunkSize else n
  }

  /** No gaps: when `0 <= overlap < chunkSize`, every character of the text
      lies in some window that starts inside the text. */
  lemma WindowCovers(text: string, chunkSize: int, overlap: int, i: int) returns (k: nat)
    requires 0 <= overlap < chunkSize
    requires 0 <= i < |text|
    ensures WindowStart(chunkSize, overlap, k) <= i
    ensures i - WindowStart(chunkSize, overlap, k) < |Window(text, chunkSize, overlap, k)|
    ensures Window(text, chunkSize, overlap, k)[i - WindowStart(chunkSize, overlap, k)] == text[i]
  {
    var stride := chunkSize - overlap;
    k := i / stride;
    assert i == k * stride + i % stride;
    WindowShape(text, chunkSize, overlap, k);
  }

  /** Consecutive windows share `overlap` characters: what window `k` holds
      beyond its first stride is a prefix of window `k + 1`. */
  lemma WindowsOverlap(text: string, chunkSize: int, overlap: int, k: nat)
    requires 0 <= overlap < chunkSize
    requires WindowStart(chunkSize, overlap, k + 1) < |text|
    ensures var w, w' := Window(text, chunkSize, overlap, k), Window(text, chunkSize, overlap, k + 1);
            chunkSize - overlap <= |w| && w[chunkSize - overlap..] <= w'
  {
    var stride := chunkSize - overlap;
    var s := WindowStart(chunkSize, overlap, k);
    NextStart(chunkSize, overlap, k);
    SliceFrom(text, s, chunkSize);
    SliceFrom(text, s + stride, chunkSize);
    StartsOverlap(text, s, stride, chunkSize);
  }

  lemma NextStart(chunkSize: int, overlap: int, k: nat)
    requires overlap < chunkSize
    ensures WindowStart(chunkSize, overlap, k + 1) == WindowStart(chunkSize, overlap, k) + (chunkSize - overlap)
  {
  }

  lemma StartsOverlap(text: string, s: int, stride: int, chunkSize: int)
    requires 0 <= s && 0 < stride <= chunkSize && s + stride < |text|
    ensures var e, e' := ClippedEnd(s, chunkSize, |text|), ClippedEnd(s + stride, chunkSize, |text|);
            s + stride <= e <= e' && text[s..e][stride..] <= text[s + stride..e']
  {
  }

  /** Ten characters, size 4, overlap 1: three windows, each sharing one
      character with the next. */
  lemma SplitTextExample()
    ensures Window("abcdefghij", 4, 1, 0) == "abcd"
    ensures Window("abcdefghij", 4, 1, 1) == "defg"
    ensures Window("abcdefghij", 4, 1, 2) == "ghij"
  {
  }
}
