/** The article batcher: rows fetched from the database are packed greedily,
    in order, into batches under a token budget, and each batch becomes one
    prompt whose articles are keyed `article_<rowid>`. */
module Batching {
  import opened Wrappers
  import opened PyStr
  import opened Format

  /** A fetched row `(rowid, filename, pagetext)`. The text column may hold
      something other than a string (a NULL), modelled as `None`; the
      filename is never read and is not modelled. */
  datatype Row = Row(rowid: int, text: Option<string>)

  /** Characters of the prompt template, before `.format` fills it in. */
  const PromptTemplateLength: nat := 1278
  const CharsPerToken: nat := 4
  const MaxTextLength: nat := 16000

  /** `len(PROMPT_TEMPLATE) // CHARS_PER_TOKEN_ESTIMATE`: the tokens every
      batch pays once. */
  const PromptOverheadTokens: nat := PromptTemplateLength / CharsPerToken

  /** The text a row contributes: its text, or the empty string when the
      column does not hold a string. */
  function TextContent(row: Row): string {
    match row.text
    case Some(t) => t
    case None => ""
  }

  /** The estimated tokens of one article and its wrapper line. */
  function RowCost(row: Row): (r: nat)
    ensures 20 <= r
    ensures row.text == None ==> r == 20
  {
    |TextContent(row)| / 4 + 20
  }

  /** The estimate is the article's characters divided by
      `CHARS_PER_TOKEN_ESTIMATE`, rounded down, plus 20 for the wrapper. */
  lemma RowCostEstimate(row: Row)
    ensures var tokens := RowCost(row) - 20;
            tokens * CharsPerToken <= |TextContent(row)| < (tokens + 1) * CharsPerToken
  {
  }

  /** The summed cost of a batch's rows. */
  function Cost(batch: seq<Row>): nat {
    if batch == [] then 0 else Cost(batch[..|batch| - 1]) + RowCost(batch[|batch| - 1])
  }

  /** The tokens a batch is estimated to take: the overhead plus its rows. */
  function BatchTokens(batch: seq<Row>): nat {
    PromptOverheadTokens + Cost(batch)
  }

  /** The batches one after another. */
  function Flatten(batches: seq<seq<Row>>): seq<Row> {
    if batches == [] then [] else Flatten(batches[..|batches| - 1]) + batches[|batches| - 1]
  }

  /** Every batch but a single-row one is within the budget. */
  predicate WithinBudget(batches: seq<seq<Row>>, budget: int) {
    forall k :: 0 <= k < |batches| && |batches[k]| >= 2 ==> BatchTokens(batches[k]) <= budget
  }

  /** Every batch but the last was closed only because the next row would
      have pushed it over the budget. */
  predicate Greedy(batches: seq<seq<Row>>, budget: int) {
    forall k :: 0 <= k < |batches| - 1 && batches[k + 1] != [] ==>
      BatchTokens(batches[k]) + RowCost(batches[k + 1][0]) > budget
  }

  /** `create_dynamic_batches(rows, token_budget)`. The batches are
      non-empty and, in order, are exactly the input rows; a batch of two or
      more rows fits the budget; no batch could have taken the first row of
      the next; and there is one batch at least and one row per batch at
      most, unless there are no rows. */
  method CreateDynamicBatches(rows: seq<Row>, budget: int) returns (batches: seq<seq<Row>>)
    ensures Flatten(batches) == rows
    ensures forall k :: 0 <= k < |batches| ==> batches[k] != []
    ensures WithinBudget(batches, budget)
    ensures Greedy(batches, budget)
    ensures rows == [] <==> batches == []
    ensures rows != [] ==> 1 <= |batches| <= |rows|
  {
    var current;
    batches, current := PackRows(rows, budget);
    if current != [] {
      CloseBatch(batches, current, budget);
      FlattenAppend(batches, current);
      batches := batches + [current];
    } else {
      assert Flatten(batches) + [] == Flatten(batches);
    }
  }

  /** The loop of `create_dynamic_batches`: the batches it has closed and
      the one still open when the rows run out. */
  method PackRows(rows: seq<Row>, budget: int) returns (batches: seq<seq<Row>>, current: seq<Row>)
    ensures Flatten(batches) + current == rows
    ensures Packed(batches, current, budget)
    ensures rows != [] <==> current != []
    ensures |batches| + |current| <= |rows|
  {
    batches := [];
    current := [];
    var currentTokens: int := PromptOverheadTokens;
    PackedStart(rows, budget);
    for i := 0 to |rows|
      invariant PackedSoFar(rows, i, batches, current, currentTokens, budget)
    {
      var row := rows[i];
      var articleTokens := RowCost(row);
      if current == [] || currentTokens + articleTokens <= budget {
        AddStep(rows, i, batches, current, currentTokens, budget);
        current := current + [row];
        currentTokens := currentTokens + articleTokens;
      } else {
        CloseStep(rows, i, batches, current, currentTokens, budget);
        batches := batches + [current];
        current := [row];
        currentTokens := PromptOverheadTokens + articleTokens;
      }
    }
    PackedAll(rows, batches, current, currentTokens, budget);
  }

  /** Once every row is seen, the invariant gives what the loop promises. */
  lemma PackedAll(rows: seq<Row>, batches: seq<seq<Row>>, current: seq<Row>, currentTokens: int, budget: int)
    requires PackedSoFar(rows, |rows|, batches, current, currentTokens, budget)
    ensures Flatten(batches) + current == rows
    ensures Packed(batches, current, budget)
    ensures rows != [] <==> current != []
    ensures |batches| + |current| <= |rows|
  {
    assert rows[..|rows|] == rows;
  }

  /** The loop invariant of `create_dynamic_batches` after `i` rows: the
      closed batches and the open one are those rows in order and keep
      `Packed`; the open batch is empty only before the first row, and
      `current_tokens` is its estimate. */
  ghost predicate PackedSoFar(rows: seq<Row>, i: nat, batches: seq<seq<Row>>, current: seq<Row>,
                              currentTokens: int, budget: int) {
    && i <= |rows|
    && Flatten(batches) + current == rows[..i]
    && Packed(batches, current, budget)
    && (i > 0 <==> current != [])
    && |batches| + |current| <= i
    && currentTokens == BatchTokens(current)
  }

  /** Before the first row: no batch, and an empty open one that costs the
      overhead only. */
  lemma PackedStart(rows: seq<Row>, budget: int)
    ensures PackedSoFar(rows, 0, [], [], PromptOverheadTokens, budget)
  {
    assert Cost([]) == 0;
    assert Flatten([]) + [] == rows[..0];
  }

  /** A row that fits, or opens the first batch, joins the open batch. */
  lemma AddStep(rows: seq<Row>, i: nat, batches: seq<seq<Row>>, current: seq<Row>, currentTokens: int, budget: int)
    requires i < |rows| && PackedSoFar(rows, i, batches, current, currentTokens, budget)
    requires current == [] || currentTokens + RowCost(rows[i]) <= budget
    ensures PackedSoFar(rows, i + 1, batches, current + [rows[i]], currentTokens + RowCost(rows[i]), budget)
  {
    PackAdd(batches, current, rows[i], budget);
    FlattenAdd(batches, current, rows, i);
  }

  /** A row that does not fit closes the open batch and opens a new one. */
  lemma CloseStep(rows: seq<Row>, i: nat, batches: seq<seq<Row>>, current: seq<Row>, currentTokens: int, budget: int)
    requires i < |rows| && PackedSoFar(rows, i, batches, current, currentTokens, budget)
    requires current != [] && currentTokens + RowCost(rows[i]) > budget
    ensures PackedSoFar(rows, i + 1, batches + [current], [rows[i]], PromptOverheadTokens + RowCost(rows[i]), budget)
  {
    PackClose(batches, current, rows[i], budget);
    FlattenClose(batches, current, rows, i);
  }

  /** The loop invariant on the batches: the closed batches are non-empty,
      fit the budget unless single, and were each closed by the row that
      opened the next; the open batch fits unless single. */
  ghost predicate Packed(batches: seq<seq<Row>>, current: seq<Row>, budget: int) {
    && (forall k :: 0 <= k < |batches| ==> batches[k] != [])
    && WithinBudget(batches, budget)
    && Greedy(batches, budget)
    && (|current| >= 2 ==> BatchTokens(current) <= budget)
    && (batches != [] ==> current != [] && BatchTokens(batches[|batches| - 1]) + RowCost(current[0]) > budget)
  }

  /** A row that fits, or opens the first batch, joins the open batch. */
  lemma PackAdd(batches: seq<seq<Row>>, current: seq<Row>, row: Row, budget: int)
    requires Packed(batches, current, budget)
    requires current == [] || BatchTokens(current) + RowCost(row) <= budget
    ensures Packed(batches, current + [row], budget)
    ensures BatchTokens(current + [row]) == BatchTokens(current) + RowCost(row)
  {
    var c := current + [row];
    assert c[..|current|] == current;
    if current != [] {
      assert c[0] == current[0];
    }
  }

  /** A row that does not fit closes the open batch and opens a new one. */
  lemma PackClose(batches: seq<seq<Row>>, current: seq<Row>, row: Row, budget: int)
    requires Packed(batches, current, budget)
    requires current != [] && BatchTokens(current) + RowCost(row) > budget
    ensures Packed(batches + [current], [row], budget)
    ensures BatchTokens([row]) == PromptOverheadTokens + RowCost(row)
  {
    CloseBatch(batches, current, budget);
    assert [row][..0] == [];
    assert Cost([row]) == Cost([]) + RowCost(row);
  }

  lemma FlattenAdd(batches: seq<seq<Row>>, current: seq<Row>, rows: seq<Row>, i: nat)
    requires i < |rows| && Flatten(batches) + current == rows[..i]
    ensures Flatten(batches) + (current + [rows[i]]) == rows[..i + 1]
  {
    assert rows[..i + 1] == rows[..i] + [rows[i]];
  }

  lemma FlattenClose(batches: seq<seq<Row>>, current: seq<Row>, rows: seq<Row>, i: nat)
    requires i < |rows| && Flatten(batches) + current == rows[..i]
    ensures Flatten(batches + [current]) + [rows[i]] == rows[..i + 1]
  {
    FlattenAppend(batches, current);
    assert rows[..i + 1] == rows[..i] + [rows[i]];
  }

  /** Closing the current batch keeps every invariant of the finished
      batches. */
  lemma CloseBatch(batches: seq<seq<Row>>, current: seq<Row>, budget: int)
    requires Packed(batches, current, budget) && current != []
    ensures var bs := batches + [current];
            (forall k :: 0 <= k < |bs| ==> bs[k] != [])
            && WithinBudget(bs, budget) && Greedy(bs, budget)
  {
    var bs := batches + [current];
    forall k | 0 <= k < |bs| - 1 && bs[k + 1] != []
      ensures BatchTokens(bs[k]) + RowCost(bs[k + 1][0]) > budget
    {
      assert bs[k] == batches[k];
      if k + 1 < |batches| {
        assert bs[k + 1] == batches[k + 1];
      }
    }
  }

  /** Closing a batch appends its rows to the flattened batches. */
  lemma FlattenAppend(batches: seq<seq<Row>>, current: seq<Row>)
    ensures Flatten(batches + [current]) == Flatten(batches) + current
  {
    assert (batches + [current])[..|batches|] == batches;
  }

  // ---------------------------------------------------------------------------
  // Prompt assembly and results: `analyze_batch_of_articles`

  /** A row is sent when its text is a string whose stripped length is at
      least 100. */
  predicate Qualifies(row: Row) {
    row.text.Some? && |Strip(row.text.value)| >= 100
  }

  /** `f"article_{rowid}"`. */
  function ArticleId(rowid: int): string {
    "article_" + IntToString(rowid)
  }

  /** Different rows get different identifiers. */
  lemma ArticleIdsApart(a: int, b: int)
    requires a != b
    ensures ArticleId(a) != ArticleId(b)
  {
    if ArticleId(a) == ArticleId(b) {
      assert IntToString(a) == ArticleId(a)[8..] == ArticleId(b)[8..] == IntToString(b);
      IntToStringInjective(a, b);
    }
  }

  /** The line that opens an article's entry. */
  function EntryHeader(rowid: int): string {
    "--- ARTICLE " + ArticleId(rowid) + " ---\n"
  }

  /** The article's entry in the prompt: its identifier line, then its text
      cut to `max_text_length_per_article` characters. */
  function PromptEntry(row: Row): string
    requires row.text.Some?
  {
    EntryHeader(row.rowid) + Prefix(row.text.value, MaxTextLength) + "\n"
  }

  /** The entry holds a prefix of the article of at most 16000 characters,
      the whole article when it is no longer than that. */
  lemma PromptEntryTruncates(row: Row)
    requires row.text.Some?
    ensures var header := EntryHeader(row.rowid);
            var body := PromptEntry(row)[|header|..|PromptEntry(row)| - 1];
            StartsWith(PromptEntry(row), header)
            && |body| <= MaxTextLength && StartsWith(row.text.value, body)
            && (|row.text.value| <= MaxTextLength ==> body == row.text.value)
  {
    var header := EntryHeader(row.rowid);
    var cut := Prefix(row.text.value, MaxTextLength);
    assert PromptEntry(row) == header + cut + "\n";
    assert PromptEntry(row)[|header|..|PromptEntry(row)| - 1] == cut;
    assert PromptEntry(row)[..|header|] == header;
  }

  /** The rows that are sent, in batch order. */
  function Included(batch: seq<Row>): (r: seq<Row>)
    ensures forall k :: 0 <= k < |r| ==> Qualifies(r[k])
  {
    if batch == [] then []
    else
      var last := batch[|batch| - 1];
      Included(batch[..|batch| - 1]) + (if Qualifies(last) then [last] else [])
  }

  /** A row is sent exactly when it is in the batch and qualifies. */
  lemma {:induction false} IncludedMembers(batch: seq<Row>)
    ensures forall r :: r in Included(batch) <==> r in batch && Qualifies(r)
  {
    if batch != [] {
      IncludedMembers(batch[..|batch| - 1]);
      assert batch == batch[..|batch| - 1] + [batch[|batch| - 1]];
    }
  }

  /** The rowids of the rows that are sent. */
  function SentIds(batch: seq<Row>): set<int> {
    set r | r in batch && Qualifies(r) :: r.rowid
  }

  /** `article_ids`: each sent rowid keyed to its identifier. */
  function ArticleIds(batch: seq<Row>): (m: map<int, string>)
    ensures m.Keys == SentIds(batch)
    ensures forall id :: id in m ==> m[id] == ArticleId(id)
  {
    map id | id in SentIds(batch) :: ArticleId(id)
  }

  /** The entries of the sent rows, in order. */
  function Prompts(rows: seq<Row>): (r: seq<string>)
    requires forall k :: 0 <= k < |rows| ==> rows[k].text.Some?
    ensures |r| == |rows|
  {
    seq(|rows|, k requires 0 <= k < |rows| => PromptEntry(rows[k]))
  }

  /** The prompt-assembly loop of `analyze_batch_of_articles`: one entry per
      sent row, in order, and the identifier of each sent rowid. */
  method AssemblePrompt(batch: seq<Row>) returns (promptTexts: seq<string>, articleIds: map<int, string>)
    ensures promptTexts == Prompts(Included(batch))
    ensures articleIds == ArticleIds(batch)
  {
    promptTexts, articleIds := [], map[];
    for i := 0 to |batch|
      invariant promptTexts == Prompts(Included(batch[..i]))
      invariant articleIds == ArticleIds(batch[..i])
    {
      var row := batch[i];
      AssembleStep(batch, i);
      if !Qualifies(row) {
        continue;
      }
      var articleId := ArticleId(row.rowid);
      articleIds := articleIds[row.rowid := articleId];
      var truncatedText := Prefix(row.text.value, MaxTextLength);
      promptTexts := promptTexts + ["--- ARTICLE " + articleId + " ---\n" + truncatedText + "\n"];
    }
    assert batch[..|batch|] == batch;
  }

  /** How one row changes the entries and `article_ids`. */
  lemma AssembleStep(batch: seq<Row>, i: nat)
    requires i < |batch|
    ensures Qualifies(batch[i]) ==>
              Prompts(Included(batch[..i + 1])) == Prompts(Included(batch[..i])) + [PromptEntry(batch[i])]
              && ArticleIds(batch[..i + 1]) == ArticleIds(batch[..i])[batch[i].rowid := ArticleId(batch[i].rowid)]
    ensures !Qualifies(batch[i]) ==>
              Included(batch[..i + 1]) == Included(batch[..i]) && ArticleIds(batch[..i + 1]) == ArticleIds(batch[..i])
  {
    IncludedStep(batch, i);
    IdsStep(batch, i);
    if Qualifies(batch[i]) {
      PromptsAppend(Included(batch[..i]), batch[i]);
    } else {
      assert Included(batch[..i]) + [] == Included(batch[..i]);
    }
  }

  /** How one row changes the sent rows. */
  lemma IncludedStep(batch: seq<Row>, i: nat)
    requires i < |batch|
    ensures Included(batch[..i + 1]) == Included(batch[..i]) + (if Qualifies(batch[i]) then [batch[i]] else [])
  {
    var b := batch[..i + 1];
    assert b[..|b| - 1] == batch[..i] && b[|b| - 1] == batch[i];
  }

  /** One more sent row adds its entry at the end. */
  lemma PromptsAppend(rows: seq<Row>, x: Row)
    requires forall k :: 0 <= k < |rows| ==> rows[k].text.Some?
    requires x.text.Some?
    ensures Prompts(rows + [x]) == Prompts(rows) + [PromptEntry(x)]
  {
    var s := rows + [x];
    var lhs, rhs := Prompts(s), Prompts(rows) + [PromptEntry(x)];
    forall k | 0 <= k < |s| ensures lhs[k] == rhs[k] {
      if k < |rows| {
        assert s[k] == rows[k];
      }
    }
  }

  /** How one row changes `article_ids`. */
  lemma IdsStep(batch: seq<Row>, i: nat)
    requires i < |batch|
    ensures Qualifies(batch[i]) ==> ArticleIds(batch[..i + 1]) == ArticleIds(batch[..i])[batch[i].rowid := ArticleId(batch[i].rowid)]
    ensures !Qualifies(batch[i]) ==> ArticleIds(batch[..i + 1]) == ArticleIds(batch[..i])
  {
    SentIdsStep(batch, i);
    if Qualifies(batch[i]) {
      IdsInsert(SentIds(batch[..i]), batch[i].rowid);
    } else {
      assert SentIds(batch[..i + 1]) == SentIds(batch[..i]) + {};
    }
  }

  /** Keying one more rowid adds its identifier. */
  lemma IdsInsert(ids: set<int>, x: int)
    ensures (map id | id in ids + {x} :: ArticleId(id)) == (map id | id in ids :: ArticleId(id))[x := ArticleId(x)]
  {
  }

  /** How one row changes the sent rowids. */
  lemma SentIdsStep(batch: seq<Row>, i: nat)
    requires i < |batch|
    ensures SentIds(batch[..i + 1]) == SentIds(batch[..i]) + (if Qualifies(batch[i]) then {batch[i].rowid} else {})
  {
    assert batch[..i + 1] == batch[..i] + [batch[i]];
    SentIdsAppend(batch[..i], batch[i]);
  }

  lemma SentIdsAppend(a: seq<Row>, x: Row)
    ensures SentIds(a + [x]) == SentIds(a) + (if Qualifies(x) then {x.rowid} else {})
  {
    var lhs, rhs := SentIds(a + [x]), SentIds(a) + (if Qualifies(x) then {x.rowid} else {});
    forall id | id in lhs ensures id in rhs {
      var r :| r in a + [x] && Qualifies(r) && r.rowid == id;
      if r != x {
        assert r in a;
      }
    }
    forall id | id in rhs ensures id in lhs {
      if id in SentIds(a) {
        var r :| r in a && Qualifies(r) && r.rowid == id;
        assert r in a + [x];
      } else {
        assert x in a + [x];
      }
    }
  }

  /** `results_by_rowid`: the parsed response's value for each sent rowid
      whose identifier it maps to a truthy value. What counts as truthy is
      left to `truthy`. */
  function ResultsByRowid<V>(articleIds: map<int, string>, parsed: map<string, V>, truthy: V -> bool): map<int, V> {
    map id | id in articleIds && articleIds[id] in parsed && truthy(parsed[articleIds[id]]) :: parsed[articleIds[id]]
  }

  /** `analyze_batch_of_articles(batch)` with the model's reply given as
      `response`: the parsed reply of the attempt that succeeded, or nothing
      when every attempt failed. With no row to send the result is the empty
      map and the reply is never asked for. */
  method AnalyzeBatchOfArticles<V>(batch: seq<Row>, response: Option<map<string, V>>, truthy: V -> bool)
    returns (result: Option<map<int, V>>)
    ensures result == AnalyzeBatch(batch, response, truthy)
  {
    var promptTexts, articleIds := AssemblePrompt(batch);
    if promptTexts == [] {
      return Some(map[]);
    }
    match response
    case None =>
      result := None;
    case Some(parsed) =>
      result := Some(ResultsByRowid(articleIds, parsed, truthy));
  }

  /** What `analyze_batch_of_articles` returns. */
  function AnalyzeBatch<V>(batch: seq<Row>, response: Option<map<string, V>>, truthy: V -> bool): Option<map<int, V>> {
    if Included(batch) == [] then Some(map[])
    else match response
      case None => None
      case Some(parsed) => Some(ResultsByRowid(ArticleIds(batch), parsed, truthy))
  }

  /** When no row qualifies the result is `{}` whatever the reply. */
  lemma NothingSentEmpty<V>(batch: seq<Row>, response: Option<map<string, V>>, truthy: V -> bool)
    requires forall r :: r in batch ==> !Qualifies(r)
    ensures AnalyzeBatch(batch, response, truthy) == Some(map[])
  {
    IncludedNone(batch);
  }

  lemma {:induction false} IncludedNone(batch: seq<Row>)
    requires forall r :: r in batch ==> !Qualifies(r)
    ensures Included(batch) == []
  {
    if batch != [] {
      var init := batch[..|batch| - 1];
      assert forall r :: r in init ==> r in batch;
      assert batch[|batch| - 1] in batch;
      IncludedNone(init);
    }
  }

  /** A rowid has a result exactly when its row was sent and the reply maps
      its identifier to a truthy value, which is the result. */
  lemma ResultKeys<V>(batch: seq<Row>, parsed: map<string, V>, truthy: V -> bool)
    ensures var res := AnalyzeBatch(batch, Some(parsed), truthy);
            res.Some? && forall id :: id in res.value <==>
              id in SentIds(batch) && ArticleId(id) in parsed && truthy(parsed[ArticleId(id)])
    ensures var res := AnalyzeBatch(batch, Some(parsed), truthy);
            res.Some? && forall id :: id in res.value ==> res.value[id] == parsed[ArticleId(id)]
  {
    IncludedMembers(batch);
    assert forall r :: r in batch && Qualifies(r) ==> r in Included(batch);
  }
}
