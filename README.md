# PatriotPilot retrieval pipeline, modelled in Dafny

PatriotPilot answers questions about George Mason University's computer
science department. Scraped pages, stored as JSON documents, are turned
into labelled text, cleaned and cut into chunks of at most 512 characters.
Those chunks are embedded into a vector index. At query time the three
nearest chunks are looked up, joined into a context of at most 512
characters, and wrapped into a fixed prompt for the language model.

This project models the parts of that pipeline that are plain data
processing, and proves what they compute:

- `py_strings.dfy` (module `PyStrings`) holds the Python string and list
  built-ins the code relies on, each with lemmas stating its behaviour. They are
  `str.isspace`, `strip`, `split()`, `" ".join`, ASCII `lower`, the
  slices `s[:n]` and `s[i:j]`, and list indexing with negative indices
  and `IndexError`.
- `preprocessing.dfy` (module `Preprocessing`) models
  `PatriotPilot/preprocessing1.py`:
  - the recursive JSON flattener (`flatten_and_label_json`), kept as a
    method with loops;
  - the text cleaner (`preprocess_text`);
  - the chunking comprehension of `preprocess_entire_page`;
  - the whole page pipeline, plus a worked page.
- `llm.dfy` (module `Llm`) models the data handling of
  `PatriotPilot/llm2.py`:
  - the metadata lookup of `search_faiss`;
  - the bounded context and the prompt template of `generate_response`.

JSON values are a datatype in which an object is a sequence of key/value
pairs in insertion order. Numbers, booleans and null are folded into one
`JOther` case, because the flattener ignores them. The English stopword
list is a parameter, and so is the index list that the vector search
returns.

Two consequences of the code are worth stating up front:

- The colon after a label is ASCII punctuation too, so it is removed along
  with everything else in `string.punctuation`. The page
  `{"contact": {"email": "cs@gmu.edu"}}` therefore cleans to
  `contact email csgmuedu` (`Preprocessing.ContactEmailPage`).
- The kept tokens are joined with single spaces, and the result is cut
  into fixed windows of characters. Chunks are cut by character and can
  split a word.

## Model

| member | source | states |
|---|---|---|
| `Preprocessing.Flatten` | PatriotPilot/preprocessing1.py:26-38 | The recursive definition of `flatten_and_label_json`. A dict flattens its members in order (`FlattenMembers`); a list flattens its items under the same key (`FlattenItems`); a string gives one fragment; anything else gives `""`. Its properties are the contracts of `FlattenAndLabelJson`, `FlattenIsFragments`, `ScalarItemContributesNothing` and `ScalarMemberContributesNothing`. |
| `Preprocessing.FlattenMembers` | PatriotPilot/preprocessing1.py:28-31 | The loop over dict items: each value is flattened under `ChildKey(parent, key)`, and the results are concatenated in order. Its properties are the contracts of `FlattenIsFragments` and `ScalarMemberContributesNothing`. |
| `Preprocessing.FlattenItems` | PatriotPilot/preprocessing1.py:32-34 | The loop over list items: each item is flattened under the parent's key, and the results are concatenated in order. Its properties are the contracts of `FlattenIsFragments` and `ScalarItemContributesNothing`. |
| `Preprocessing.ChildKey` | PatriotPilot/preprocessing1.py:30 | The definition of a member's label, `f"{parent_key} {key}".strip()`. For label and keys that are non-empty with no whitespace at either end, nesting it is the single-space join; this is the contract of `LabelOfCleanPath`. `BlankKeyAbsorbed` states how it absorbs a blank key. |
| `Preprocessing.Fragment` | PatriotPilot/preprocessing1.py:35-37 | The definition of a string leaf's contribution, `f"{parent_key}: {data}"` followed by `" | "`. What cleaning makes of it is the contract of `FragmentCleaned`. |
| `Preprocessing.FlattenAndLabelJson` | PatriotPilot/preprocessing1.py:26-38 | The loop-and-recursion method returns exactly the value of the recursive definition `Flatten`: dict members in order under `strip(parent + " " + key)`, list items under the same key, a string becomes `key: value | `, anything else contributes nothing. |
| `Preprocessing.FlattenIsFragments` | PatriotPilot/preprocessing1.py:26-38 | The flattened text is the concatenation, in document order, of one `label: value | ` fragment per string leaf of the document, and there are exactly as many fragments as string leaves. |
| `Preprocessing.TopLevelFragment` | PatriotPilot/preprocessing1.py:29-37 | Starting from the empty key, a string leaf whose keys are all non-empty and have no whitespace at either end is labelled with its key path joined by single spaces, followed by `: `, the value and ` | `. |
| `Preprocessing.LabelOfCleanPath` | PatriotPilot/preprocessing1.py:30 | Nesting keys through `f"{parent_key} {key}".strip()` equals joining the whole key path with single spaces, when the starting label and every key are non-empty and have no whitespace at either end. An empty or all-whitespace key does not fit this pattern: `strip` absorbs it (`BlankKeyAbsorbed`). |
| `Preprocessing.BlankKeyAbsorbed` | PatriotPilot/preprocessing1.py:30 | A key that is empty or all whitespace is absorbed by `strip`: under a non-empty label with no whitespace at either end, the child label is that label unchanged, and at the top of a page it is empty. |
| `Preprocessing.ScalarItemContributesNothing` | PatriotPilot/preprocessing1.py:32-38 | A number, boolean or null inside a list adds nothing to the flattened text. |
| `Preprocessing.ScalarMemberContributesNothing` | PatriotPilot/preprocessing1.py:28-38 | A number, boolean or null as a dict value adds nothing to the flattened text. |
| `Preprocessing.PunctuationRanges` | PatriotPilot/preprocessing1.py:19 | The four ASCII ranges used as the punctuation test are exactly the characters of `string.punctuation`. |
| `Preprocessing.RemovePunctuation` | PatriotPilot/preprocessing1.py:19 | The definition of `text.translate(str.maketrans('', '', string.punctuation))`: each character is dropped if it is punctuation and kept otherwise. The contracts of `RemovePunctuationAppend` and `RemovePunctuationChar` fix the function between them. |
| `Preprocessing.RemovePunctuationAppend` | PatriotPilot/preprocessing1.py:19 | Removing punctuation works character by character: on a concatenation it is the concatenation of the results. |
| `Preprocessing.RemovePunctuationChar` | PatriotPilot/preprocessing1.py:19 | A single character is removed iff it is one of `string.punctuation`, and kept unchanged otherwise. |
| `Preprocessing.RemovePunctuationChars` | PatriotPilot/preprocessing1.py:19 | A character is in the result of the punctuation removal iff it is in the input and is not punctuation; the result is a subsequence of the input. |
| `Preprocessing.FragmentCleaned` | PatriotPilot/preprocessing1.py:19 | Removing punctuation from a `label: value | ` fragment leaves the cleaned label, one space, the cleaned value and two spaces: the separators disappear. |
| `Preprocessing.RemoveStopwords` | PatriotPilot/preprocessing1.py:21 | A word is among the kept tokens iff it is an input token and not a stopword, and the kept tokens keep their input order (a subsequence). |
| `Preprocessing.RemoveStopwordsCounts` | PatriotPilot/preprocessing1.py:21 | Every word that is not a stopword is kept as many times as it occurs in the input, so repeated words stay repeated. With the row above, this fixes the filter's result. |
| `Preprocessing.PreprocessTextIsClean` | PatriotPilot/preprocessing1.py:17-23 | The cleaned text contains no ASCII upper-case letter and no punctuation character. |
| `Preprocessing.PreprocessTextTokens` | PatriotPilot/preprocessing1.py:17-23 | Splitting the cleaned text again gives back exactly the kept tokens; a word is in it iff it is a token of the lowered, punctuation-free text and not a stopword; its tokens keep their order. |
| `Preprocessing.PreprocessTextSpacing` | PatriotPilot/preprocessing1.py:21-22 | The cleaned text is single-spaced (no leading, trailing or doubled space, no other whitespace), and it is empty iff every token is a stopword. |
| `Preprocessing.ChunkText` | PatriotPilot/preprocessing1.py:52-55 | A chunk size of 0 raises `ValueError` (`range` with step 0); a negative size gives no chunks; a positive size gives the consecutive windows of the text. |
| `Preprocessing.WindowCountBounds` | PatriotPilot/preprocessing1.py:54 | For a positive size, the number of chunks k satisfies `(k-1)*size < n <= k*size`, that is k is the ceiling of n / size. |
| `Preprocessing.WindowsConcat` | PatriotPilot/preprocessing1.py:52-55 | Concatenating the chunks in order gives back the text: nothing is lost, duplicated or reordered. |
| `Preprocessing.WindowsAt` | PatriotPilot/preprocessing1.py:53 | The j-th chunk is the text at offset j*size; it is between 1 and size characters long, and exactly size characters unless it is the last. |
| `Preprocessing.WindowsBounds` | PatriotPilot/preprocessing1.py:52-55 | Every chunk is non-empty and at most size characters long. |
| `Preprocessing.RechunkingIsStable` | PatriotPilot/preprocessing1.py:52-55 | Chunking the concatenation of the chunks again with the same size gives the same chunks. |
| `Preprocessing.ChunkRechunked` | PatriotPilot/preprocessing1.py:52-55 | Chunking any one chunk again with the same size gives back that chunk alone. |
| `Preprocessing.PreprocessText` | PatriotPilot/preprocessing1.py:17-23 | The definition of `preprocess_text`: lower-case, remove punctuation, split into words, drop stopwords, join with single spaces. Its properties are the contracts of `PreprocessTextIsClean`, `PreprocessTextTokens` and `PreprocessTextSpacing`. |
| `Preprocessing.Windows` | PatriotPilot/preprocessing1.py:53-55 | The definition of the chunk comprehension for a positive size: element j is `text[j*size : j*size+size]`. Its properties are the contracts of `WindowCountBounds`, `WindowsAt`, `WindowsBounds` and `WindowsConcat`. |
| `Preprocessing.PreprocessPage` | PatriotPilot/preprocessing1.py:41-57 | The definition of `preprocess_entire_page` once the file is loaded: flatten from the empty key, clean, and chunk. Its properties are the contracts of `PreprocessPageSpec` and `DefaultChunkSize`. |
| `Preprocessing.PreprocessPageSpec` | PatriotPilot/preprocessing1.py:41-57 | For a page and a positive chunk size, the pipeline succeeds; its chunks concatenate to the cleaned flattened page; each chunk is 1..size long and clean. |
| `Preprocessing.DefaultChunkSize` | PatriotPilot/preprocessing1.py:41-57 | With the default `max_chunk_size=512`, the page pipeline succeeds and every chunk holds between 1 and 512 characters. |
| `Preprocessing.NestedStringPage` | PatriotPilot/preprocessing1.py:17-38 | A page holding one key, which holds one key with a string value, is considered. Both keys are non-empty, contain no whitespace, are unchanged by cleaning, and are not stopwords; the value cleans to one such word. The page then flattens to the single fragment `outer inner: value | ` and preprocesses to `outer inner word`. |
| `Preprocessing.ContactEmailPage` | PatriotPilot/preprocessing1.py:46-49 | The page `{"contact": {"email": "cs@gmu.edu"}}` flattens to `contact email: cs@gmu.edu | ` and cleans to `contact email csgmuedu`. |
| `PyStrings.StripSpec` | PatriotPilot/preprocessing1.py:30 | `strip` returns a contiguous piece of its input; everything it removes is whitespace; the result has no whitespace at either end. |
| `PyStrings.SplitJoin` | PatriotPilot/preprocessing1.py:20-22 | Splitting the single-space join of non-empty, whitespace-free tokens gives back those tokens. |
| `PyStrings.Strip` | PatriotPilot/preprocessing1.py:30 | The definition of `str.strip()`: the part between the first and the last non-whitespace character. Its properties are the contract of `StripSpec`. |
| `PyStrings.Split` | PatriotPilot/preprocessing1.py:20 | `str.split()` without arguments: every token is non-empty and contains no whitespace. What the tokens hold is the contract of `SplitKeepsNonSpace` and `SplitInterleaved`, for any whitespace, including the runs of spaces a cleaned page has. |
| `PyStrings.SplitKeepsNonSpace` | PatriotPilot/preprocessing1.py:20 | The tokens run together are exactly the non-whitespace characters of the input, in order: splitting drops whitespace and nothing else. |
| `PyStrings.SplitInterleaved` | PatriotPilot/preprocessing1.py:20 | For words that are non-empty and have no whitespace, set apart by gaps of whitespace, `split()` gives back exactly the words, in order. The gaps may be of any length, including the outer gaps, and only the inner gaps must be non-empty. |
| `PyStrings.Join` | PatriotPilot/preprocessing1.py:22 | The definition of `" ".join`: the elements with the separator between each neighbouring pair. Its length is the contract of `JoinLength`, and `SplitJoin` proves that splitting undoes it. |
| `PyStrings.JoinLength` | PatriotPilot/llm2.py:55 | A join of one or more strings is as long as the strings together plus one separator per neighbouring pair. |
| `PyStrings.Lower` | PatriotPilot/preprocessing1.py:18 | `str.lower()` on ASCII: the result has the input's length and no upper-case ASCII letter. Each character is unchanged, or is an upper-case letter replaced by its lower-case form (code + 32). |
| `PyStrings.PrefixSlice` | PatriotPilot/llm2.py:55 | Python's `s[:n]`: the result is a prefix of `s`. For `n >= 0` it has `min(n, len(s))` elements. For `n < 0` it has `len(s) + n` elements, or none when `-n > len(s)`. |
| `PyStrings.Slice` | PatriotPilot/preprocessing1.py:53 | Python's `s[i:j]` for non-negative bounds: `s[i..j]` when both are in range, empty when `j <= i`, and the rest of `s` from `i` when `j` is past the end. |
| `PyStrings.PyIndex` | PatriotPilot/llm2.py:49 | Python's `xs[i]`: it succeeds iff `-len(xs) <= i < len(xs)`, gives `xs[i]` for a non-negative index and `xs[len(xs)+i]` for a negative one, and raises `IndexError` otherwise. |
| `Llm.SearchFaiss` | PatriotPilot/llm2.py:41-51 | `search_faiss` once the query has been embedded and searched, as the lookup `[metadata[i] for i in I[0]]` of line 49: it succeeds iff every index is in `[-len, len)`, and fails with `IndexError` otherwise; on success there is one text per index, namely Python's `metadata[i]`. |
| `Llm.SearchFaissAligned` | PatriotPilot/llm2.py:49 | When every returned index is a position in the metadata, the texts are the metadata entries at those positions, in the search order. |
| `Llm.SearchFaissFullIndex` | PatriotPilot/llm2.py:46-49 | With at least three chunks in the index, the search result yields three metadata entries, aligned with the returned positions. |
| `Llm.SearchFaissPaddedAsWritten` | PatriotPilot/llm2.py:46-49 | As written, with fewer chunks than k: an empty index raises `IndexError`, and otherwise every padded slot repeats the last metadata entry. |
| `Llm.SearchFaissOneChunk` | PatriotPilot/llm2.py:46-49 | With one chunk in the index, the search result `[0, -1, -1]` gives that chunk three times. |
| `Llm.LookupFound` | PatriotPilot/llm2.py:49 | The corrected lookup, which skips the padding value -1 and looks up every other index. With no indices it gives no texts. Its properties are the contract of `LookupFoundSpec`. |
| `Llm.LookupFoundSpec` | PatriotPilot/llm2.py:49 | The corrected lookup skips the padding: it never fails on a search result, gives `min(k, n)` texts aligned with the returned positions, and gives none on an empty index. |
| `Llm.Context` | PatriotPilot/llm2.py:55 | The context is a prefix of the space-joined texts. With a non-negative limit it is at most the limit long. It is the whole join when that fits, and exactly the limit long otherwise. No texts give an empty context. |
| `Llm.JoinedTextsLength` | PatriotPilot/llm2.py:55 | Untruncated, the joined texts are as long as all the texts together plus one space per neighbouring pair. |
| `Llm.NegativeContextLength` | PatriotPilot/llm2.py:55 | A negative limit drops that many characters from the end, as Python slicing does. |
| `Llm.ContextCutsMidWord` | PatriotPilot/llm2.py:55 | The cut is by character. `["advising", "office"]` cut at 12 gives `advising off`. |
| `Llm.Prompt` | PatriotPilot/llm2.py:58 | The prompt is exactly the introduction (53 characters), then the context, then the instruction (81), then the query, then `\nAnswer:` (8), each at its stated offset. |
| `Llm.PromptInjective` | PatriotPilot/llm2.py:58 | For contexts of equal length, equal prompts mean equal contexts and equal queries. |
| `Llm.ResponsePrompt` | PatriotPilot/llm2.py:53-58 | The prompt that `generate_response` builds: the template around the truncated context and the query. Its properties are the contracts of `ResponsePromptShape` and `EmptyRetrievalPrompt`. |
| `Llm.ResponsePromptShape` | PatriotPilot/llm2.py:53-58 | The prompt of `generate_response` always holds the query and ends with the answer cue. With a non-negative limit it is at most 142 + limit + query length long. |
| `Llm.EmptyRetrievalPrompt` | PatriotPilot/llm2.py:55-58 | With nothing retrieved, the prompt is the template around the query alone. |
| `Llm.QueryPrompt` | PatriotPilot/llm2.py:85-89 | One round of the query loop: the search with the corrected lookup, then the prompt. Its properties are the contract of `QueryOnEmptyIndex`. |
| `Llm.QueryOnEmptyIndex` | PatriotPilot/llm2.py:86-89 | With the corrected lookup, a query against an empty index still produces the prompt, with an empty context. |

## Left out

- The embedding of the query and the nearest-neighbour search (llm2.py:43, 46) are calls into a neural model and a vector library. The index list they return is a parameter. `Llm.IsSearchResult` describes the shape an exact L2 index gives: real positions first, then -1 padding.
- Tokenising, generating and decoding with the language model (llm2.py:61-74) are calls into a neural model.
- Loading the model, the index and the metadata (llm2.py:1-39) is I/O. So are reading the JSON file (preprocessing1.py:42-43), the NLTK downloads (preprocessing1.py:10-11), the main loops that read input and print or save results (preprocessing1.py:60-77, llm2.py:77-94), and the `exit` test on the query.
- `Preprocessing.PreprocessText`: NLTK's `word_tokenize` is replaced by Python's `str.split()`. On text that has ASCII punctuation removed, the two agree on ordinary words. NLTK also applies Treebank rules (for example `cannot` becomes `can not`) and splits off non-ASCII punctuation such as curly quotes; those rules are not modelled.
- `PyStrings.Lower`: lower-casing covers ASCII letters only. Unicode case mapping is not modelled, and neither is the case where one character lowers to several.
- The NLTK English stopword list is a parameter rather than the list itself.
- JSON objects are key/value sequences, which may repeat a key. A parsed Python dict never has duplicate keys: it keeps one key, with its last value. On a sequence with a repeated key the model flattens every copy. No proof relies on keys being unique.
- `preprocess_entire_page`'s chunk size is modelled as an integer. Passing a non-integer (`TypeError`) is not modelled.
- The embedding script, the fine-tuning scripts and the web scraper are not part of this model.

## Findings

| source | as written | input that shows it | evidently intended | confidence | as-written member | corrected member |
|---|---|---|---|---|---|---|
| PatriotPilot/llm2.py:49 | `[metadata[i] for i in I[0]]` uses every index the search returns, including the -1 that an exact index returns for "no neighbour" when it holds fewer than k = 3 vectors. Python reads `metadata[-1]` as the last entry. | An index with one chunk returns `I[0] == [0, -1, -1]`, and the texts become that chunk three times. An empty index raises `IndexError`. | Skip the -1 entries and return only the chunks actually found: `min(k, n)` texts, none for an empty index. | medium; not executed | `Llm.SearchFaissPaddedAsWritten` | `Llm.LookupFoundSpec` |
