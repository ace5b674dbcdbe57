/** PatriotPilot/llm2.py, the parts that are not calls into a model: turning
    the vector search's index list into chunk texts (search_faiss), and
    building the bounded context and the prompt around it (generate_response). */
module Llm {
  import opened PyStrings

  /** The k that search_faiss asks the index for. */
  const TopK: nat := 3

  /** The default max_context_length of generate_response. */
  const MaxContextLength: int := 512

  // ================================================================ search_faiss

  /** search_faiss once the query has been embedded and searched: `ids` is
      I[0], the index list the vector search returned, and the result is
      [metadata[i] for i in I[0]]. Every index goes through Python's list
      indexing, so a negative index counts from the end and anything else
      out of range raises IndexError. */
  function SearchFaiss(metadata: seq<string>, ids: seq<int>): (r: Result<seq<string>>)
    ensures r.Ok? <==> forall j :: 0 <= j < |ids| ==> -|metadata| <= ids[j] < |metadata|
    ensures r.Err? ==> r.error == IndexError
    ensures r.Ok? ==> |r.value| == |ids|
    ensures r.Ok? ==> forall j :: 0 <= j < |ids| ==> PyIndex(metadata, ids[j]) == Ok(r.value[j])
  {
    if ids == [] then Ok([])
    else
      match PyIndex(metadata, ids[0])
      case Err(e) => Err(e)
      case Ok(text) =>
        match SearchFaiss(metadata, ids[1..])
        case Err(e) => Err(e)
        case Ok(rest) => Ok([text] + rest)
  }

  /** When the index and the metadata were built from the same chunk list,
      every id the search returns is a position in the metadata; the texts
      are then exactly the metadata entries at those positions, in the
      search's order, one per id. */
  lemma SearchFaissAligned(metadata: seq<string>, ids: seq<int>)
    requires forall j :: 0 <= j < |ids| ==> 0 <= ids[j] < |metadata|
    ensures SearchFaiss(metadata, ids).Ok?
    ensures var texts := SearchFaiss(metadata, ids).value;
      |texts| == |ids| && forall j :: 0 <= j < |ids| ==> texts[j] == metadata[ids[j]]
  {
    var r := SearchFaiss(metadata, ids);
    forall j | 0 <= j < |ids| ensures r.value[j] == metadata[ids[j]] {
      assert PyIndex(metadata, ids[j]) == Ok(r.value[j]);
    }
  }

  // ---------------------------------------------------------------- padded search results

  /** What an exact L2 index holding n vectors returns as I[0] for a search
      with k neighbours: the first min(k, n) entries are distinct positions
      of stored vectors, and the remaining entries are the padding value -1. */
  predicate IsSearchResult(ids: seq<int>, n: nat, k: nat) {
    && |ids| == k
    && (forall j :: 0 <= j < k ==> if j < n then 0 <= ids[j] < n else ids[j] == -1)
    && (forall a, b :: 0 <= a < b < k && b < n ==> ids[a] != ids[b])
  }

  /** As written, when the index holds at least k chunks the padding never
      shows, and search_faiss returns the metadata entries at k distinct
      positions. */
  lemma SearchFaissFullIndex(metadata: seq<string>, ids: seq<int>)
    requires |metadata| >= TopK && IsSearchResult(ids, |metadata|, TopK)
    ensures SearchFaiss(metadata, ids).Ok?
    ensures var texts := SearchFaiss(metadata, ids).value;
      |texts| == TopK && forall j :: 0 <= j < TopK ==> texts[j] == metadata[ids[j]]
  {
    SearchFaissAligned(metadata, ids);
  }

  /** As written, with fewer chunks than k the padding -1 is used as a list
      index: on an empty index it raises IndexError, and otherwise every
      padded slot repeats the last chunk of the metadata. */
  lemma SearchFaissPaddedAsWritten(metadata: seq<string>, ids: seq<int>, k: nat)
    requires |metadata| < k && IsSearchResult(ids, |metadata|, k)
    ensures |metadata| == 0 ==> SearchFaiss(metadata, ids) == Err(IndexError)
    ensures |metadata| > 0 ==>
      && SearchFaiss(metadata, ids).Ok?
      && forall j :: |metadata| <= j < k ==> SearchFaiss(metadata, ids).value[j] == metadata[|metadata| - 1]
  {
    var n := |metadata|;
    assert ids[k - 1] == -1;
    if n > 0 {
      var r := SearchFaiss(metadata, ids);
      forall j | n <= j < k ensures r.value[j] == metadata[n - 1] {
        assert PyIndex(metadata, ids[j]) == Ok(metadata[n - 1]);
      }
    }
  }

  /** One chunk in the index, three neighbours asked for: the one chunk comes back three times. */
  lemma SearchFaissOneChunk(chunk: string)
    ensures IsSearchResult([0, -1, -1], 1, TopK)
    ensures SearchFaiss([chunk], [0, -1, -1]) == Ok([chunk, chunk, chunk])
  {
    SearchFaissPaddedAsWritten([chunk], [0, -1, -1], TopK);
    var texts := SearchFaiss([chunk], [0, -1, -1]).value;
    assert PyIndex([chunk], 0) == Ok(texts[0]);
    assert texts == [chunk, chunk, chunk];
  }

  /** The lookup evidently intended: padding entries stand for "no
      neighbour" and are skipped, and only real positions are looked up. */
  function LookupFound(metadata: seq<string>, ids: seq<int>): (r: Result<seq<string>>)
    ensures |ids| == 0 ==> r == Ok([])
  {
    if ids == [] then Ok([])
    else if ids[0] == -1 then LookupFound(metadata, ids[1..])
    else
      match PyIndex(metadata, ids[0])
      case Err(e) => Err(e)
      case Ok(text) =>
        match LookupFound(metadata, ids[1..])
        case Err(e) => Err(e)
        case Ok(rest) => Ok([text] + rest)
  }

  lemma {:induction false} LookupFoundPrefix(metadata: seq<string>, ids: seq<int>, m: nat)
    requires m <= |ids| && m <= |metadata|
    requires forall j :: 0 <= j < |ids| ==> if j < m then 0 <= ids[j] < |metadata| else ids[j] == -1
    ensures LookupFound(metadata, ids).Ok?
    ensures var texts := LookupFound(metadata, ids).value;
      |texts| == m && forall j :: 0 <= j < m ==> texts[j] == metadata[ids[j]]
  {
    if ids != [] {
      var rest := ids[1..];
      if m == 0 {
        LookupFoundPrefix(metadata, rest, 0);
      } else {
        LookupFoundPrefix(metadata, rest, m - 1);
        var tail := LookupFound(metadata, rest).value;
        assert LookupFound(metadata, ids).value == [metadata[ids[0]]] + tail;
      }
    }
  }

  /** With the padding skipped, every search result is looked up without
      error, there are min(k, n) texts, the j-th being the metadata entry at
      the j-th returned position; an empty index gives no texts. */
  lemma LookupFoundSpec(metadata: seq<string>, ids: seq<int>, k: nat)
    requires IsSearchResult(ids, |metadata|, k)
    ensures LookupFound(metadata, ids).Ok?
    ensures var texts := LookupFound(metadata, ids).value;
      && |texts| == (if k <= |metadata| then k else |metadata|)
      && (forall j :: 0 <= j < |texts| ==> texts[j] == metadata[ids[j]])
      && (|metadata| == 0 ==> texts == [])
  {
    var m := if k <= |metadata| then k else |metadata|;
    LookupFoundPrefix(metadata, ids, m);
  }

  // ================================================================ generate_response

  /** " ".join(retrieved_texts)[:max_context_length] */
  function Context(retrievedTexts: seq<string>, maxContextLength: int): (r: string)
    ensures r <= Join(" ", retrievedTexts)
    ensures maxContextLength >= 0 ==> |r| <= maxContextLength
    ensures 0 <= |Join(" ", retrievedTexts)| <= maxContextLength ==> r == Join(" ", retrievedTexts)
    ensures 0 <= maxContextLength < |Join(" ", retrievedTexts)| ==> |r| == maxContextLength
    ensures retrievedTexts == [] ==> r == ""
  {
    PrefixSlice(Join(" ", retrievedTexts), maxContextLength)
  }

  /** Untruncated, the joined texts are as long as the texts together plus
      one space between each neighbouring pair. */
  lemma JoinedTextsLength(retrievedTexts: seq<string>)
    requires |retrievedTexts| >= 1
    ensures |Join(" ", retrievedTexts)| == TotalLength(retrievedTexts) + |retrievedTexts| - 1
  {
    JoinLength(" ", retrievedTexts);
  }

  /** A negative max_context_length drops that many characters from the end
      of the joined texts, as Python's slicing does. */
  lemma NegativeContextLength(retrievedTexts: seq<string>, maxContextLength: int)
    requires maxContextLength < 0
    ensures var joined := Join(" ", retrievedTexts);
      Context(retrievedTexts, maxContextLength)
        == if -maxContextLength <= |joined| then joined[..|joined| + maxContextLength] else ""
  {
  }

  /** The cut is by character and ignores word boundaries. */
  lemma ContextCutsMidWord(a: string, b: string)
    requires a == "advising" && b == "office"
    ensures Context([a, b], 12) == "advising off"
  {
    assert Join(" ", [a, b]) == a + " " + b by {
      assert [a, b][1..] == [b];
    }
  }

  /** The literal parts of the prompt template. */
  const PromptIntro: string := "Here is some information extracted from the dataset: "
  const PromptMiddle: string := "\n\nNow, answer this question based on the information extracted from the dataset:\n"
  const AnswerCue: string := "\nAnswer:"

  /** Where each part of a five-part concatenation sits. */
  lemma TemplateLayout(intro: string, context: string, middle: string, query: string, cue: string)
    requires |intro| == 53 && |middle| == 81 && |cue| == 8
    ensures var p := intro + context + middle + query + cue;
      && |p| == 142 + |context| + |query|
      && p[..53] == intro
      && p[53..53 + |context|] == context
      && p[53 + |context|..134 + |context|] == middle
      && p[134 + |context|..134 + |context| + |query|] == query
      && p[|p| - 8..] == cue
  {
    var p := intro + context + middle + query + cue;
    assert p == intro + (context + (middle + (query + cue)));
  }

  /** The f-string prompt of generate_response: the introduction, the
      context, the instruction, the query and the answer cue, in that order. */
  function Prompt(query: string, context: string): (p: string)
    ensures |p| == 142 + |context| + |query|
    ensures p[..53] == PromptIntro
    ensures p[53..53 + |context|] == context
    ensures p[53 + |context|..134 + |context|] == PromptMiddle
    ensures p[134 + |context|..134 + |context| + |query|] == query
    ensures p[|p| - 8..] == AnswerCue
  {
    TemplateLayout(PromptIntro, context, PromptMiddle, query, AnswerCue);
    PromptIntro + context + PromptMiddle + query + AnswerCue
  }

  /** The prompt tells its parts apart: prompts with contexts of the same
      length are equal only for the same context and the same query. */
  lemma PromptInjective(q1: string, c1: string, q2: string, c2: string)
    requires |c1| == |c2| && Prompt(q1, c1) == Prompt(q2, c2)
    ensures q1 == q2 && c1 == c2
  {
    var p := Prompt(q1, c1);
    assert c1 == p[53..53 + |c1|] == c2;
    assert |q1| == |q2|;
    assert q1 == p[134 + |c1|..134 + |c1| + |q1|] == q2;
  }

  /** The prompt generate_response hands to the tokenizer. */
  function ResponsePrompt(query: string, retrievedTexts: seq<string>, maxContextLength: int): string {
    Prompt(query, Context(retrievedTexts, maxContextLength))
  }

  /** Whatever was retrieved, the prompt holds the query and ends with the
      answer cue, and with a non-negative limit it is at most the fixed
      template length plus the limit plus the query longer. */
  lemma ResponsePromptShape(query: string, retrievedTexts: seq<string>, maxContextLength: int)
    ensures var p := ResponsePrompt(query, retrievedTexts, maxContextLength);
      var c := Context(retrievedTexts, maxContextLength);
      && p[134 + |c|..134 + |c| + |query|] == query
      && p[|p| - 8..] == AnswerCue
      && (maxContextLength >= 0 ==> |p| <= 142 + maxContextLength + |query|)
  {
  }

  /** Nothing retrieved: the context is empty, and the prompt is the template
      around the query alone. */
  lemma EmptyRetrievalPrompt(query: string, maxContextLength: int)
    ensures ResponsePrompt(query, [], maxContextLength) == PromptIntro + PromptMiddle + query + AnswerCue
  {
    var intro, middle, cue := PromptIntro, PromptMiddle, AnswerCue;
    assert Context([], maxContextLength) == "";
    assert intro + "" + middle + query + cue == intro + middle + query + cue;
  }

  // ================================================================ one query

  /** One round of the query loop, search then prompt, with the padding of
      the search result skipped. */
  function QueryPrompt(query: string, metadata: seq<string>, ids: seq<int>, maxContextLength: int): Result<string> {
    match LookupFound(metadata, ids)
    case Err(e) => Err(e)
    case Ok(texts) => Ok(ResponsePrompt(query, texts, maxContextLength))
  }

  /** Over an index with no chunks a query still reaches the model, with an
      empty context and the query in the prompt. */
  lemma QueryOnEmptyIndex(query: string, ids: seq<int>)
    requires IsSearchResult(ids, 0, TopK)
    ensures QueryPrompt(query, [], ids, MaxContextLength) == Ok(PromptIntro + PromptMiddle + query + AnswerCue)
  {
    LookupFoundSpec([], ids, TopK);
    EmptyRetrievalPrompt(query, MaxContextLength);
  }
}
