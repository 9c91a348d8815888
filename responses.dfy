/** Turning a model's free-text response into candidate lines: split on
    newlines, strip each line, keep the non-empty ones longer than a minimum
    (`[line.strip() for line in body.split('\n') if line.strip() and
    len(line.strip()) > n]`). The legal splitter keeps lines longer than 2
    characters, the meeting splitter lines longer than 5. */
module ResponseLines {
  import opened PyStr

  /** The test applied to a stripped line: non-empty and long enough. */
  predicate Kept(stripped: string, longerThan: nat) {
    stripped != [] && |stripped| > longerThan
  }

  /** Every line, stripped. */
  function StripAll(lines: seq<string>): (r: seq<string>)
    ensures |r| == |lines| && forall k :: 0 <= k < |lines| ==> r[k] == Strip(lines[k])
  {
    seq(|lines|, k requires 0 <= k < |lines| => Strip(lines[k]))
  }

  /** The filter of the comprehension over already-stripped lines: those
      that pass the test, in order. */
  function KeepLong(stripped: seq<string>, longerThan: nat): (r: seq<string>)
    ensures |r| <= |stripped|
    ensures forall k :: 0 <= k < |r| ==> r[k] in stripped && Kept(r[k], longerThan)
    ensures forall x :: x in r <==> x in stripped && Kept(x, longerThan)
  {
    if stripped == [] then []
    else
      var rest := KeepLong(stripped[1..], longerThan);
      assert stripped == [stripped[0]] + stripped[1..];
      if Kept(stripped[0], longerThan) then [stripped[0]] + rest else rest
  }

  /** The lines kept from a response body `body`. */
  function CandidateLines(body: string, longerThan: nat): (r: seq<string>)
    ensures forall k :: 0 <= k < |r| ==> |r[k]| > longerThan && Strip(r[k]) == r[k] && '\n' !in r[k]
    ensures forall x :: x in r <==> x in StripAll(SplitLines(body)) && Kept(x, longerThan)
  {
    var stripped := StripAll(SplitLines(body));
    StrippedLines(SplitLines(body));
    KeepLong(stripped, longerThan)
  }

  /** Stripping a line of a split leaves a stripped line without newlines. */
  lemma StrippedLines(lines: seq<string>)
    requires forall k :: 0 <= k < |lines| ==> '\n' !in lines[k]
    ensures forall x :: x in StripAll(lines) ==> Strip(x) == x && '\n' !in x
  {
    forall x | x in StripAll(lines) ensures Strip(x) == x && '\n' !in x {
      var j :| 0 <= j < |lines| && StripAll(lines)[j] == x;
      StripChars(lines[j]);
      StripIdempotent(lines[j]);
    }
  }

  /** Response order is kept: the lines kept from two stretches of lines are
      the lines kept from the first followed by those kept from the second. */
  lemma {:induction false} KeepLongAppend(a: seq<string>, b: seq<string>, longerThan: nat)
    ensures KeepLong(a + b, longerThan) == KeepLong(a, longerThan) + KeepLong(b, longerThan)
  {
    if a == [] {
      assert a + b == b;
    } else {
      assert (a + b)[0] == a[0] && (a + b)[1..] == a[1..] + b;
      KeepLongAppend(a[1..], b, longerThan);
    }
  }
}
