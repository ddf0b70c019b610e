/**
 * The `/custom-journal-query` handler: choose the retrieved context, add a
 * date filter to the instruction, and hand the prompt to the text-to-SQL
 * chain. The JSON rendering of the context and the chain are inputs:
 * `dumps` stands for `json.dumps`, and `run` for the chain, `None` meaning
 * that it raised.
 */
module Chat {
  import opened Wrappers
  import opened Text
  import opened Calendar
  import opened Fusion
  import opened TimeRange

  /** Journal hits are used only when the closest one is nearer than this. */
  const RelevanceThreshold: real := 1.0

  /** Number of hits put into the context. */
  const ContextLimit: nat := 2

  const Preamble: string :=
    "Convert the following natural language request into a MySQL query. "
    + "Ensure to handle time expressions like 'last week' or 'December 2024'. "

  const NoArticlesMessage: string := "No relevant articles found."

  const ChainFailureMessage: string := "Please provide a more precise query."

  /** The endpoint's answer: the no-articles message, or the chain's response with the context it saw. */
  datatype Reply = NoArticles | Answer(response: string, context: string)

  function Take(hits: seq<Hit>, n: nat): (r: seq<Hit>)
    ensures r <= hits && |r| == Min(n, |hits|)
  {
    hits[..Min(n, |hits|)]
  }

  /**
   * The hits that make up the context. `journal` and `news` are what
   * `get_journal_details` returned for the two collections, the empty list
   * standing for `None`.
   */
  function SelectContext(journal: seq<Hit>, news: seq<Hit>): (r: Option<seq<Hit>>)
  {
    if |journal| > 0 && journal[0].distance < RelevanceThreshold then Some(Take(journal, ContextLimit))
    else if |news| > 0 then Some(Take(news, ContextLimit))
    else None
  }

  /**
   * The context is the first one or two journal hits when the closest is
   * relevant, otherwise the first one or two news hits whatever their
   * distance, and there is none only when the journal hits are not relevant
   * and there are no news hits.
   */
  lemma SelectContextCases(journal: seq<Hit>, news: seq<Hit>)
    ensures var r := SelectContext(journal, news);
            var relevant := |journal| > 0 && journal[0].distance < RelevanceThreshold;
            (r.None? <==> !relevant && |news| == 0)
            && (relevant ==> r.value <= journal && |r.value| == Min(2, |journal|))
            && (!relevant && |news| > 0 ==> r.value <= news && |r.value| == Min(2, |news|))
            && (r.Some? ==> 1 <= |r.value| <= ContextLimit)
  {
  }

  /** The date clause of the instruction: present exactly when both dates are (and non-empty). */
  function DateFilter(start: Option<string>, end: Option<string>): (f: string)
    ensures |f| > 0 <==> start.Some? && end.Some? && |start.value| > 0 && |end.value| > 0
  {
    if start.Some? && end.Some? && |start.value| > 0 && |end.value| > 0
    then "Filter results where `publication_date` BETWEEN '" + start.value + "' AND '" + end.value + "'. "
    else ""
  }

  function Prompt(query: string, filter: string, context: string): string
  {
    Preamble + filter + "User request: " + query + ". Context: " + context + "."
  }

  /**
   * The prompt opens with the fixed instruction, carries the date clause
   * right after it, and ends with the question and the context.
   */
  lemma PromptLayout(query: string, filter: string, context: string)
    ensures var p := Prompt(query, filter, context);
            StartsWith(p, Preamble)
            && At(p, filter, |Preamble|)
            && At(p, "User request: " + query + ". Context: " + context + ".", |Preamble| + |filter|)
  {
    var p := Prompt(query, filter, context);
    var tail := "User request: " + query + ". Context: " + context + ".";
    assert p == Preamble + filter + tail;
    assert p[..|Preamble|] == Preamble;
    assert p[|Preamble|..|Preamble| + |filter|] == filter;
    assert p[|Preamble| + |filter|..|Preamble| + |filter| + |tail|] == tail;
  }

  /** `chat`: the reply to one question. */
  function ChatReply(
    query: string, now: Date, parsed: Option<Date>, journal: seq<Hit>, news: seq<Hit>,
    dumps: seq<Hit> -> string, run: string -> Option<string>): (r: Reply)
    requires Valid(now) && now.year >= 2
    requires parsed.Some? ==> Valid(parsed.value)
  {
    var (start, end) := ParseTimeExpression(query, now, parsed);
    match SelectContext(journal, news)
    case None => NoArticles
    case Some(hits) =>
      var context := dumps(hits);
      var prompt := Prompt(query, DateFilter(start, end), context);
      Answer(run(prompt).GetOr(ChainFailureMessage), context)
  }

  /**
   * The reply carries the rendered context; the response is the chain's
   * answer to the prompt, with the date range of the question in its
   * filter, or the fixed request for a more precise query when the chain
   * fails; no articles in either collection means no answer at all.
   */
  lemma ChatReplySpec(
    query: string, now: Date, parsed: Option<Date>, journal: seq<Hit>, news: seq<Hit>,
    dumps: seq<Hit> -> string, run: string -> Option<string>)
    requires Valid(now) && now.year >= 2
    requires parsed.Some? ==> Valid(parsed.value)
    ensures var r := ChatReply(query, now, parsed, journal, news, dumps, run);
            var sel := SelectContext(journal, news);
            var range := ParseTimeExpression(query, now, parsed);
            (r.NoArticles? <==> sel.None?)
            && (r.Answer? ==>
                  var prompt := Prompt(query, DateFilter(range.0, range.1), r.context);
                  r.context == dumps(sel.value)
                  && (run(prompt).Some? ==> r.response == run(prompt).value)
                  && (run(prompt).None? ==> r.response == ChainFailureMessage)
                  && (range.0.Some? ==> |DateFilter(range.0, range.1)| > 0))
  {
    var range := ParseTimeExpression(query, now, parsed);
    if range.0.Some? {
      assert |range.0.value| == 10 && |range.1.value| == 10;
    }
  }
}
