# Document splitters and article batcher, modelled in Dafny

This project models the deterministic core of four Python utilities:

- **`split_text`**. All three splitters copy it: they cut a document into
  overlapping windows before sending them to a local language model.
- **The legal-document splitter** (`legal_splitter.py`):
  - keeps the candidate lines of the model's response;
  - orders the distinct candidates longest first;
  - gates their literal occurrences and the heading-pattern matches against
    the last accepted boundary plus `min_section_length`;
  - sorts and de-duplicates the result, then appends the text length;
  - merges boundaries closer than the threshold, where a later offset
    overwrites an earlier one;
  - extracts a heading per section and writes the numbered, lower-cased
    section files.
- **The meeting-transcript splitter** (`meeting_splitter.py`). Same shape,
  with four differences:
  - pattern matches are gated first;
  - each candidate contributes only its first occurrence, gated by
    `min_section//2`;
  - the merge always overwrites;
  - files are named `discussion_NNN.txt`, or `NNN_<title>.txt` when a title
    is found.
- **The semantic splitter** (`semantic_splitter.py`):
  - turns each candidate phrase into the offset just after its first
    occurrence, then sorts and de-duplicates those offsets;
  - walks the sorted offsets with a cursor: offsets at or before the cursor
    are skipped, and every other offset cuts a section numbered by its
    index;
  - writes the non-blank sections and the remainder.
- **The article batcher** (`batch-summaries.py`):
  - packs database rows greedily, in order, into batches under a token
    budget;
  - for each batch, builds one prompt over the rows whose stripped text has
    at least 100 characters, keyed `article_<rowid>` and cut to 16000
    characters;
  - keeps the truthy entries of the parsed reply for those identifiers.

Modules:

| Module | Contents |
|---|---|
| `Wrappers` | `Option` |
| `PyStr` | the Python `str` operations used (`strip`, `split('\n')`, slicing, `startswith`, `lower`) |
| `Format` | `f"{n}"` and `f"{n:03d}"`, and their injectivity |
| `Ordering` | `sorted(set(xs))` and `sorted(xs)` |
| `Search` | `str.find`, and `re.finditer` over an escaped literal |
| `ResponseLines` | the response-line comprehension |
| `Windowing` | `split_text` |
| `Boundaries` | the gated scan and the merge pass shared by the legal and meeting splitters |
| `Sections` | the shared save loop |
| `LegalSplitter`, `MeetingSplitter`, `SemanticSplitter`, `Batching` | one module per script |

The source's loops are methods proved against specification functions:
`SplitText`, `ScanPositions`, `ScanLists`, `MergeBoundaries`,
`FindLegalBoundaries`, `FindTopicBoundaries`, `FindValidSplits`,
`SaveSections`/`WalkPoints`, `WriteNonBlank`,
`CreateDynamicBatches`/`PackRows` and `AssemblePrompt`. The properties of
the specification functions are proved as lemmas.

Two behaviours of the code that shape the model:

- `split_text` has no guard on its sizes (legal_splitter.py:11-18). With a
  non-empty text and `overlap >= chunk_size`, `start` never advances and the
  loop runs forever. The `--chunk_size` and `--overlap` options accept such
  values (legal_splitter.py:139-141). An empty text gives `[]` for any sizes.
  `Windowing.SplitText` therefore requires `overlap < chunkSize` or an empty
  text.
- The two merge loops overwrite differently. The legal splitter overwrites
  the last kept boundary only with a strictly later offset
  (legal_splitter.py:99-100). The meeting splitter always overwrites
  (meeting_splitter.py:94-96). `Boundaries.Overwrite` keeps the two rules
  apart, and `Boundaries.MergeRulesAgree` proves that on sorted input, which
  is what both splitters pass to the merge, the two rules give the same list.

## Model

| member | source | states |
|---|---|---|
| `Windowing.SplitText` | legal_splitter.py:11-18 | An empty text gives no chunk, whatever the sizes. Otherwise the chunks are exactly the windows `text[k*(size-overlap) : k*(size-overlap)+size]` whose start lies inside the text, in order. The loop stops at the first start at or beyond the end, so no window is missing (the same function appears at meeting_splitter.py:11-18 and semantic_splitter.py:11-19). |
| `Windowing.WindowShape` | legal_splitter.py:14-17 | A window that starts inside the text is a non-empty contiguous run of at most `chunk_size` characters from that start. |
| `Windowing.WindowCovers` | meeting_splitter.py:11-18 | No gaps: with `0 <= overlap < chunk_size`, every character of the text lies in some window, at the matching offset. |
| `Windowing.WindowsOverlap` | semantic_splitter.py:11-19 | What a window holds beyond its first stride is a prefix of the next window, so consecutive windows share `overlap` characters. |
| `ResponseLines.CandidateLines` | legal_splitter.py:57-58 | Every kept line is stripped, newline-free and longer than the minimum. A line of the response is kept exactly when its stripped form is non-empty and that long. |
| `ResponseLines.KeepLongAppend` | meeting_splitter.py:54-55 | The comprehension keeps response order: filtering two stretches of lines is filtering each and concatenating. |
| `LegalSplitter.BoundaryLines` | legal_splitter.py:57-58 | The legal response lines: stripped, newline-free, longer than 2. The filter holds in both directions. |
| `MeetingSplitter.TransitionLines` | meeting_splitter.py:54-55 | The meeting response lines: stripped, newline-free, longer than 5. The filter holds in both directions. |
| `PyStr.StripIsInfix` | legal_splitter.py:124 | `strip()` keeps one contiguous piece that neither starts nor ends with whitespace, with only whitespace around it. |
| `PyStr.StripEmptyIff` | legal_splitter.py:126 | A stripped section is empty exactly when the raw slice is all whitespace. |
| `PyStr.JoinSplitLines` | legal_splitter.py:106 | `split('\n')` loses nothing: joining the pieces with newlines gives the text back. |
| `PyStr.SplitJoinLines` | legal_splitter.py:57 | Newline-free lines come back unchanged from a join followed by `split('\n')`. |
| `PyStr.Prefix` | batch-summaries.py:125 | `s[:k]` is a prefix of at most `k` characters, and the whole string when it is no longer than that. |
| `Search.Find` | meeting_splitter.py:81 | `str.find` returns -1 exactly when the phrase does not occur; otherwise it returns the first occurrence. |
| `Search.Occurrences` | legal_splitter.py:71-72 | The `finditer` matches of a non-empty literal are occurrences, in increasing order, that do not overlap. |
| `Search.OccurrencesComplete` | legal_splitter.py:71 | Every occurrence is a match or overlaps one: the scan misses nothing it could have taken. |
| `Ordering.SortedDistinct` | legal_splitter.py:91 | `sorted(list(set(xs)))` is strictly increasing and holds exactly the elements of `xs`. |
| `Ordering.SortedDistinctOfSameElements` | semantic_splitter.py:54 | `sorted(set(xs))` depends only on which values occur in `xs`. |
| `Ordering.Sort` | semantic_splitter.py:59 | `sorted(xs)` is non-decreasing and a permutation of `xs`. |
| `Ordering.SortOfSorted` | semantic_splitter.py:59 | Sorting already sorted offsets changes nothing. |
| `Format.ParseNatToString` | batch-summaries.py:123 | Reading back the decimal form of a non-negative number gives the number. |
| `Format.IntToStringInjective` | batch-summaries.py:123 | Different integers print differently, including negative ones. |
| `Format.Pad3` | legal_splitter.py:128 | `f"{n:03d}"` is all digits, at least three of them. |
| `Format.Pad3Injective` | meeting_splitter.py:112 | Different numbers get different zero-padded labels, including numbers above 999. |
| `Boundaries.GateScan` | legal_splitter.py:71-74 | Only the last accepted boundary is consulted, so the scan keeps what was accepted before as a prefix. |
| `Boundaries.GateScanGated` | legal_splitter.py:73-74 | Every position the scan accepts is one of its inputs and lies more than the threshold beyond its predecessor. |
| `Boundaries.GateListsElements` | legal_splitter.py:84-88 | The pattern scans add only positions some pattern matched. |
| `Boundaries.GateListsIncreasing` | meeting_splitter.py:73-77 | With a non-negative threshold the gated list strictly increases. |
| `Boundaries.ScanPositions` | legal_splitter.py:71-74 | The appending loop computes the gated scan of its positions. |
| `Boundaries.ScanLists` | legal_splitter.py:84-88 | The loop over patterns runs the gated scan over each match list in pattern order. |
| `Boundaries.MergeBoundaries` | legal_splitter.py:95-100 | The loop that builds `final_boundaries` computes the merge of the boundaries under the splitter's overwrite rule. |
| `Boundaries.MergeEndsAtLast` | legal_splitter.py:92-100 | On sorted input the merged list ends with the last input boundary (the text length), under either overwrite rule. |
| `Boundaries.MergeStrictlySpaced` | meeting_splitter.py:89-96 | On sorted input with a positive threshold, the merged boundaries strictly increase in steps of at least the threshold. |
| `Boundaries.MergeFirst` | meeting_splitter.py:90-96 | The first input boundary survives exactly when the second is at least the threshold beyond it; otherwise the result starts at or after the second. |
| `Boundaries.MergeKeepsAll` | legal_splitter.py:96-98 | Boundaries that already clear the threshold one after another are all kept. |
| `Boundaries.MergeNonPositiveGap` | legal_splitter.py:95-100 | With a threshold of at most 0, the merge leaves sorted boundaries unchanged. |
| `Boundaries.MergeSplit` | meeting_splitter.py:90-96 | The merge loop can be run over two stretches of input in turn. |
| `Boundaries.MergeRulesAgree` | legal_splitter.py:95-100 | On sorted input, overwriting only with a strictly later offset (legal_splitter.py:99) and always overwriting (meeting_splitter.py:96) give the same merged list. |
| `Boundaries.MergeElements` | legal_splitter.py:95-100 | Every merged boundary is an input boundary. |
| `Boundaries.SentinelShape` | legal_splitter.py:91-92 | After `sorted(set(...))` and appending the length, the list is sorted and runs from 0 to the text length; it strictly increases when the text is non-empty. |
| `LegalSplitter.LongestFirst` | legal_splitter.py:68 | The candidates are distinct, ordered by non-increasing length, and are exactly the input candidates. |
| `LegalSplitter.CandidateHits` | legal_splitter.py:69-72 | The match starts a candidate contributes all lie inside the text. |
| `LegalSplitter.FindLegalBoundaries` | legal_splitter.py:63-102 | The result is the specified boundary list and ends at `len(full_text)`. With a positive threshold the boundaries strictly increase and are at least the threshold apart. |
| `LegalSplitter.PreMergeShape` | legal_splitter.py:65-88 | Before the cleanup, the list starts at 0, each entry lies more than the threshold beyond the previous one, and each entry is 0 or an offset inside the text. |
| `LegalSplitter.LegalPreMergeSorted` | legal_splitter.py:91 | With a non-negative threshold the pre-cleanup list is already strictly increasing, so the sort and de-duplication change nothing. |
| `LegalSplitter.LegalEndsAtLength` | legal_splitter.py:92-102 | The last boundary is the text length, for any candidate order that is longest first. |
| `LegalSplitter.LegalSpaced` | legal_splitter.py:94-101 | With a positive threshold the boundaries strictly increase and are at least the threshold apart. |
| `LegalSplitter.LegalStart` | legal_splitter.py:95-100 | The boundaries start at 0 unless nothing was accepted and the text is non-empty but shorter than the threshold. In that case the result is the single boundary `len(full_text)`. |
| `LegalSplitter.LegalElements` | legal_splitter.py:90-100 | Every boundary is the text length or an entry of the pre-cleanup list. |
| `LegalSplitter.DropHashes` | legal_splitter.py:110 | Only a leading run of `#` is removed, and what remains does not start with `#`. |
| `LegalSplitter.HeadingFromLine` | legal_splitter.py:108-114 | A heading taken from a qualifying line has at most 50 characters, all from `[a-zA-Z0-9 \-_]`. |
| `LegalSplitter.ExtractHeading` | legal_splitter.py:104-115 | `extract_heading` returns at most 50 characters, all from the heading set. |
| `LegalSplitter.ExtractHeadingFirst` | legal_splitter.py:106-114 | The heading comes from the first line that, once stripped, starts with `#` or with ARTICLE, SECTION or CLAUSE in any case. |
| `LegalSplitter.ExtractHeadingDefault` | legal_splitter.py:115 | When no line qualifies, the heading is `section`. |
| `LegalSplitter.LegalFileName` | legal_splitter.py:128-129 | The file name is the zero-padded number, `_`, the lower-cased heading with blanks replaced by `_`, and `.md`; it holds no blank. Lower-casing leaves the number alone. |
| `LegalSplitter.LegalFileNamesDistinct` | legal_splitter.py:121-129 | Sections with different numbers get different file names, whatever their headings. |
| `LegalSplitter.SaveLegalSections` | legal_splitter.py:117-132 | One file is written per non-blank stripped section, in order. Each file has the section's text and its numbered name, and no file overwrites another. |
| `MeetingSplitter.FoundAt` | meeting_splitter.py:80-83 | `full_text.find` gives at most one offset per candidate, each 0 (where the empty candidate is found) or inside the text. |
| `MeetingSplitter.FindTopicBoundaries` | meeting_splitter.py:60-98 | The result is the specified boundary list and ends at `len(full_text)`. With a positive threshold the boundaries strictly increase and are at least the threshold apart. |
| `MeetingSplitter.MeetingPreMergeShape` | meeting_splitter.py:62-83 | Before the cleanup, the list starts at 0 and holds only 0 or offsets inside the text. With a non-negative threshold it strictly increases. |
| `MeetingSplitter.MeetingShape` | meeting_splitter.py:86-87 | The merge pass receives a sorted list from 0 to the text length, strictly increasing for a non-empty text. |
| `MeetingSplitter.MeetingStart` | meeting_splitter.py:90-96 | The start 0 survives exactly when the next boundary is at least the threshold away. Otherwise it is overwritten, and the text before the new start is in no section. |
| `MeetingSplitter.MeetingOpeningLost` | meeting_splitter.py:79-96 | Worked case for a 10-character transcript with threshold 4: a candidate at offset 3 passes the half-threshold gate and then overwrites 0, giving `[3, 10]`. |
| `MeetingSplitter.CleanTitle` | meeting_splitter.py:114 | The cleaned title has at most 40 characters, each a word character, whitespace or `-` taken from the title. |
| `MeetingSplitter.DiscussionNamesDistinct` | meeting_splitter.py:111-115 | Discussions with different numbers get different names, with or without titles. |
| `MeetingSplitter.SaveDiscussions` | meeting_splitter.py:100-118 | One file is written per non-blank stripped section, in order. An untitled section is named `discussion_NNN.txt`, and no file overwrites another. |
| `Sections.SectionText` | legal_splitter.py:122-124 | A section's text is empty exactly when its raw slice is all whitespace. |
| `Sections.WriteNonBlank` | meeting_splitter.py:104-118 | The save loop writes exactly the non-blank sections, in increasing order, each under `name(i+1, section)`. Names are distinct when the naming scheme keeps numbers apart. |
| `SemanticSplitter.SplitAfter` | semantic_splitter.py:48-51 | A found candidate yields the offset just after its first occurrence, between its length and the text length. A candidate that is not found yields nothing. |
| `SemanticSplitter.ResolvedSplitsMembers` | semantic_splitter.py:46-52 | An offset is collected exactly when it ends the first occurrence of some candidate. |
| `SemanticSplitter.FindValidSplits` | semantic_splitter.py:44-54 | The loop-and-dedup result is the specified split list: strictly increasing, within `[0, len(full_text)]`. |
| `SemanticSplitter.ValidSplitsMembers` | semantic_splitter.py:44-54 | An offset is a split exactly when some candidate occurs and the offset ends that candidate's first occurrence. |
| `SemanticSplitter.MissingCandidateIgnored` | semantic_splitter.py:48-49 | A candidate that does not occur adds no split. |
| `SemanticSplitter.ValidSplitsOfSameCandidates` | semantic_splitter.py:47-54 | The splits depend only on which candidates were proposed, not on their order or repetition. |
| `SemanticSplitter.EmptyCandidateSplitsAtZero` | semantic_splitter.py:48-52 | An empty candidate line yields the split 0, which is then the first split. |
| `SemanticSplitter.SaveSections` | semantic_splitter.py:56-77 | The written sections are the non-blank pieces of the cursor walk, then the non-blank remainder numbered `len(split_points)+1`. File numbers strictly increase. |
| `SemanticSplitter.WalkPoints` | semantic_splitter.py:59-71 | The loop writes the non-blank cuts of the walk and leaves the cursor where the walk ends. |
| `SemanticSplitter.PiecesWalk` | semantic_splitter.py:62-71 | The cuts chain from the cursor to the final cursor, each ending strictly after it starts. They are numbered by index in increasing order, and the cursor never moves back. |
| `SemanticSplitter.CursorIsPoint` | semantic_splitter.py:71 | The final cursor is 0 or one of the split points. |
| `SemanticSplitter.PiecesConcatenate` | semantic_splitter.py:60-77 | Nothing is lost or repeated: for split points inside the text, the unstripped pieces and the remainder spell out the whole text. |
| `SemanticSplitter.WrittenExactlyNonBlank` | semantic_splitter.py:67-77 | A piece is written exactly when it is not blank; a blank piece still moves the cursor. |
| `SemanticSplitter.ZeroNeverCuts` | semantic_splitter.py:63-65 | A split at 0, such as the one an empty phrase yields, never cuts, and every cut starts at or after 0. |
| `SemanticSplitter.WrittenNumbersIncrease` | semantic_splitter.py:69-76 | The written sections have strictly increasing numbers, so no file number repeats. |
| `SemanticSplitter.SectionFileNamesApart` | semantic_splitter.py:69-76 | Different section numbers give different `section_NNN.txt` names. |
| `Batching.RowCost` | batch-summaries.py:94-98 | An article costs at least 20 tokens, exactly 20 when its text is not a string. |
| `Batching.RowCostEstimate` | batch-summaries.py:98 | The article estimate is its characters divided by 4, rounded down, plus 20. |
| `Batching.CreateDynamicBatches` | batch-summaries.py:82-112 | The batches are non-empty and, concatenated, are the input rows in order. Every batch of two or more rows fits the budget, and no batch could have taken the next batch's first row. There is no batch exactly when there is no row, and never more batches than rows. |
| `Batching.PackRows` | batch-summaries.py:93-106 | The loop's closed batches plus the open one are the rows in order. The open batch is non-empty exactly when there were rows, and every packing invariant holds. |
| `Batching.PackAdd` | batch-summaries.py:100-102 | A row that fits, or opens the first batch, joins the open batch; the invariants hold and the running total grows by the row's cost. |
| `Batching.PackClose` | batch-summaries.py:103-106 | A row that does not fit closes the open batch and opens a new one costing the overhead plus the row. |
| `Batching.IncludedMembers` | batch-summaries.py:119-121 | A row is sent exactly when it is in the batch and its text is a string with a stripped length of at least 100. |
| `Batching.ArticleIds` | batch-summaries.py:118-124 | `article_ids` has exactly the sent rowids as keys, each mapped to `article_<rowid>`. |
| `Batching.ArticleIdsApart` | batch-summaries.py:123 | Different rowids get different article identifiers. |
| `Batching.PromptEntryTruncates` | batch-summaries.py:125-126 | An entry is its identifier line, then a prefix of the article of at most 16000 characters (the whole article when it is no longer), then a newline. |
| `Batching.AssemblePrompt` | batch-summaries.py:118-126 | The loop produces one entry per sent row, in batch order, and the identifier map of the sent rows. |
| `Batching.AnalyzeBatchOfArticles` | batch-summaries.py:114-146 | The method returns `{}` without using the reply when no row is sent, `None` when every attempt failed, and otherwise the results by rowid. |
| `Batching.NothingSentEmpty` | batch-summaries.py:128-129 | When no row qualifies the result is `{}`, whatever the reply. |
| `Batching.ResultKeys` | batch-summaries.py:139-141 | A rowid has a result exactly when its row was sent and the reply maps its identifier to a truthy value. That value is the result. |

## Left out

- HTTP and model calls are not modelled: the Ollama requests, the Gemini client and `json.loads`. A response body, a parsed reply (`Option<map<string, V>>`, where `None` means every attempt failed) and truthiness (`truthy`) are parameters. A reply that parses to something other than a JSON object is folded into `None`.
- The retry loop, `time.sleep` and logging are not modelled; only the final outcome of the attempts is kept.
- SQLite, the schema update, the row query and the writes of results are not modelled; rows are an input sequence. The `filename` column is never read and is not modelled.
- File I/O is not modelled (`read_file`, `os.makedirs`, `open`/`write`). A written file is its name and content, in write order. `os.path.join` and the output directory are not modelled.
- `argparse`, `main`, `tqdm` and `print` are not modelled, nor is the per-chunk collection of candidates across chunks, which is only calls and list concatenation.
- Regular-expression engines are not modelled:
  - the match starts of the legal heading patterns and the meeting priority patterns are input lists, one per pattern in pattern order, each inside the text;
  - the meeting title search is the parameter `titleOf`;
  - Unicode `\w` is the parameter `wordChar`.
- Literal candidate search (`re.escape` with `finditer`, and `str.find`) is modelled exactly.
- `LegalSplitter.LongestFirst`: among candidates of equal length, Python's order follows `set` iteration, which depends on string hashing. The model fixes one arrangement, and the boundary lemmas hold for every longest-first arrangement.
- `re.IGNORECASE` and `.lower()` are modelled as ASCII case folding; non-ASCII case pairs are not modelled.
- The prompt templates' text is not modelled. Only the batcher's template length (1278 characters, hence 319 overhead tokens) enters the model, and the `"\n".join` of the entries into the final prompt is not modelled.
- `ollama-summarize-markdown.py` is not part of this model.
- `Windowing.SplitText`: requires `overlap < chunk_size` unless the text is empty. For a non-empty text with `overlap >= chunk_size` the source loops forever, and a non-terminating call is not modelled.
