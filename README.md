# CureNet answer pipeline, modelled in Dafny

CureNet is a medical question-answering service. This project models the part of its backend that turns a question and the scraped article texts into an answer:

- **The context pipeline** (`backend/ragModel.js`) runs these steps in order:
  1. Normalise the corpus's white space.
  2. Cut it into sentence-aligned chunks of at most 1000 characters. A single sentence longer than that becomes a chunk of its own.
  3. Rank the chunks by word overlap with the question.
  4. Ask the generative model to summarise the ten best chunks.
  5. Pack the summaries into one "mega chunk" of at most 3000 characters.
  6. Keep the mega chunk only if it contains the question, ignoring case; otherwise use the full corpus.
  7. Ask the model for the answer.
- **Answer post-processing** (`backend/nlp.js`) handles a weak answer. If the model's answer is empty or says "no answer", it is replaced by up to five article sentences that share a token with the question. When no sentence matches, the model's answer is kept as it is. An answer shorter than five characters becomes a default message. The result is returned with the question, a confidence and the first three sources.

The modules are:

- `Wrappers`: `Option`, `Result` and `Min`.
- `Sequences`: flattening and a few generic sequence facts.
- `JsString`: the JavaScript string built-ins the code relies on: `trim`, `\s`, `toLowerCase`, `includes`, `split` on one character, `join`, and the class `[.!?]`.
- `RagModel`: `ragModel.js`.
- `Nlp`: `nlp.js`.

Operations with loops, and the top-level call, are methods, and each is proved equal to a specification function:

- `chunkText` becomes `ChunkText` and `Pack`.
- `summarizeTopChunks` becomes `SummarizeTopChunks` and `Summaries`.
- `createMegaChunk` becomes `CreateMegaChunk` and `MegaChunk`.
- `extractRelevantInfo` becomes `ExtractRelevantInfo` and `RelevantInfo`.
- `processResponse` becomes `ProcessResponse` and `ProcessedResponse`.
- `getModelResponse` becomes `GetModelResponse` and `AnswerContext`.

The properties are then proved about those specification functions. Expression-only code (scoring, the fallback test, `formatResponse`) is modelled as functions.

External services become parameters:

- **The generative model (Gemini)** is a `Generator`. It is a function from the request's number within one run, and the prompt, to a `Reply`: the generated text or the error raised. The summary requests are numbered `0..k-1`, and the answer request is number `k`.
- **The boilerplate substitutions** of `preprocessText` are an uninterpreted `string -> string`.
- **The word tokenizer** of `natural` is a `Tokenizer`.

Some behaviour of the code is easy to misread; the model follows the code:

- **Chunk score.** The score is not the number of distinct query words present plus the sum of their counts. The code filters the chunk's words with repeats kept, so every occurrence of a query word counts. The score is therefore the sum, over matching occurrences, of 1 plus that word's count in the chunk. `ScoreWordsSnoc` states the resulting increment: `2 + 2c`.
- **Confidence.** The server's answer does not carry the pipeline's confidence 0.8. `processResponse` reads `modelResponse.score`, a field the pipeline's object does not have, so the answer returned by the server carries confidence 0 (`PipelineConfidenceIsZero`).
- **Empty first chunk.** Not every chunk is a group of sentences. When the first sentence alone is longer than the limit, `chunkText` first pushes the still-empty chunk as `""`. `EmptyChunkOnlyFirst` shows this is the only empty chunk.
- **Failure handling.** The only failure `processResponse` catches within the modelled core is `article.content.split` on an article without content. It happens only if the scan reaches that article before five matches are found (`RelevantInfoFails`). The server never hands over such an article: the scraper drops every article whose content is missing or blank (`backend/scraping.js:66`), so on the server's path this error reply does not arise.

## Model

| member | source | states |
|---|---|---|
| JsString.Trim | backend/ragModel.js:21 | `trim()` leaves no white space at either end, never lengthens, returns `""` exactly for blank text, and leaves already-trimmed text unchanged |
| JsString.TrimDropsTrailingSpace | backend/ragModel.js:35-43 | the space appended after the last sentence of a chunk never survives `trim()` |
| JsString.Lower | backend/ragModel.js:55-57 | `toLowerCase` keeps the length and lowers each character on its own |
| JsString.LowerAppend | backend/ragModel.js:57 | lower-casing distributes over concatenation |
| JsString.ContainsIffOccurs | backend/ragModel.js:124 | the `includes` scan succeeds exactly when the needle occurs at some position |
| JsString.TrimDropsLeadingSpace | backend/ragModel.js:21 | a leading space never survives `trim()` |
| JsString.Contains | backend/ragModel.js:124 | the empty needle is always contained, and a contained needle is no longer than the text |
| JsString.Split | backend/ragModel.js:57 | `split` on one character always yields at least one piece |
| JsString.Join | backend/nlp.js:23 | `join` of no parts is `""`; otherwise the result starts with the first part and ends with the last |
| JsString.SplitAtSeparator | backend/ragModel.js:57 | `split(' ')` of `a + ' ' + b` is the pieces of `a` followed by the pieces of `b` |
| JsString.SplitWithoutSeparator | backend/ragModel.js:57 | a text without the separator splits into itself alone |
| JsString.SplitPiecesLackSeparator | backend/ragModel.js:57 | no piece of a split holds the separator |
| RagModel.CollapseRuns | backend/ragModel.js:20 | collapsing white-space runs keeps the text empty or not and its first character blank or not, and leaves only single plain spaces |
| RagModel.TokensAreWords | backend/ragModel.js:20 | the white-space-separated words of a text have no white space, and together they are exactly its visible characters, in order |
| RagModel.CollapseTrimJoinsTokens | backend/ragModel.js:20-21 | collapsing every white-space run to one space and trimming gives the text's words joined by single spaces |
| RagModel.CollapseKeepsText | backend/ragModel.js:20 | collapsing white space keeps every visible character, in order |
| RagModel.TrimKeepsVisible | backend/ragModel.js:21 | trimming keeps every visible character, in order |
| RagModel.PreprocessText | backend/ragModel.js:15-25 | the cleaned text is the words of the text after the boilerplate substitutions joined by single spaces; so it is trimmed, single-spaced, and holds exactly their visible characters |
| RagModel.SentencesCoverText | backend/ragModel.js:30 | after its leading terminators, the text is its sentences in order plus a tail without terminators; text without terminators has no sentences |
| RagModel.Sentences | backend/ragModel.js:30 | every match of `/[^.!?]+[.!?]+/g` starts with a non-terminator and ends in a run of terminators |
| RagModel.ChunkText | backend/ragModel.js:27-51 | the chunks are the trimmed texts of the groups of the greedy packing of the sentences |
| RagModel.PackIsWellPacked | backend/ragModel.js:33-40 | the loop state covers the sentences in order; every group fits or is one over-long sentence; a group ends only where the next sentence did not fit; only the first pushed group can be empty |
| RagModel.ChunksFollowSentences | backend/ragModel.js:29-44 | the chunk groups flattened are exactly the sentences, one chunk per group, and each group ends where its next sentence would not fit |
| RagModel.ChunkLengthBound | backend/ragModel.js:33-44 | every chunk is at most `maxLength` long, or it is the trim of one sentence that is itself longer |
| RagModel.EmptyGroupOnlyFirst | backend/ragModel.js:36-38 | a sentence group is empty exactly when it is the first one and the first sentence is longer than `maxLength` |
| RagModel.EmptyChunkOnlyFirst | backend/ragModel.js:36-38 | a chunk is `""` exactly when it is the first and the first sentence alone is longer than `maxLength` |
| RagModel.ScoreWordsSnoc | backend/ragModel.js:57-59 | one more chunk word adds nothing unless it is a query word, and then `2 + 2c` where `c` counts its earlier occurrences |
| RagModel.CountOfMatching | backend/ragModel.js:58-59 | the matching words hold every occurrence of a query word and none of any other word |
| RagModel.ScoreZeroIffNoMatch | backend/ragModel.js:55-59 | a chunk scores zero exactly when none of its words is a query word |
| RagModel.Score | backend/ragModel.js:55-59 | a chunk's score is zero exactly when none of its lower-cased words is a word of the lower-cased query |
| RagModel.ScoreAppendWord | backend/ragModel.js:55-59 | appending a word never lowers the score, and raises it by `2 + 2c` when its lower-cased form is a query word |
| RagModel.Insert | backend/ragModel.js:63 | one insertion step of the sort adds exactly one element and keeps the rest |
| RagModel.InsertKeepsOrder | backend/ragModel.js:63 | insertion keeps a list sorted highest score first |
| RagModel.InsertIsStable | backend/ragModel.js:63 | insertion places the new element after the others of its score and does not reorder them |
| RagModel.SortByScore | backend/ragModel.js:63 | the sort returns a permutation of its input |
| RagModel.SortByScoreIsStable | backend/ragModel.js:63 | the sort orders by score, highest first, and keeps the input order within each score |
| RagModel.ScoredChunksSorted | backend/ragModel.js:53-69 | the scored chunks are a permutation of the chunks with their own scores, sorted highest first and stable among equal scores |
| RagModel.ScoreChunksByQuery | backend/ragModel.js:53-69 | one scored entry per chunk, ordered highest score first |
| RagModel.GenerateSummary | backend/ragModel.js:84-104 | the summary is the text generated for the summary prompt, or the chunk itself when the request fails |
| RagModel.SummarizeTopChunks | backend/ragModel.js:71-82 | one summary per chunk among the first `topN`, in order; request `i` is for chunk `i`; a failed request yields the chunk itself |
| RagModel.SummariesOfFailingModel | backend/ragModel.js:94-103 | when every request fails, the summaries are the top chunks unchanged |
| RagModel.FitCount | backend/ragModel.js:109-115 | the mega chunk takes every summary before the first one that does not fit, and that one does not fit |
| RagModel.CreateMegaChunk | backend/ragModel.js:106-120 | the loop builds the mega chunk of the fitting summaries, and its length is at most `maxLength` |
| RagModel.MegaChunkBound | backend/ragModel.js:106-120 | the trimmed mega chunk never exceeds `maxLength`, even though its last appended space may reach `maxLength + 1` |
| RagModel.Fallback | backend/ragModel.js:122-131 | the mega chunk is kept when it contains the query ignoring ASCII case; otherwise the full context is returned unmodified |
| RagModel.AnswerOf | backend/ragModel.js:147-183 | a generated answer yields the response with the question and confidence 0.8; a failed request fails the call with its own error |
| RagModel.GetModelResponse | backend/ragModel.js:159-184 | the result is the outcome of request number `min(10, chunks)` for the answer prompt built on the chosen context |
| RagModel.AnswerContextIsMegaChunkOrFull | backend/ragModel.js:164-171 | the answer request carries the full context, or a text of at most 3000 characters that contains the question ignoring case |
| Nlp.Fragments | backend/nlp.js:54 | `split(/[.!?]+/)` always yields at least one fragment |
| Nlp.FragmentsKeepText | backend/nlp.js:54 | the fragments hold exactly the content's characters that are not terminators, in order |
| Nlp.FragmentsAtRun | backend/nlp.js:54 | the content is cut at every maximal run of terminators: a terminator-free piece followed by such a run is the first fragment, and the fragments of the rest follow |
| Nlp.FragmentsOfTerminatorFree | backend/nlp.js:54 | content without terminators is one fragment |
| Nlp.MatchesInAppend | backend/nlp.js:55-64 | the relevant fragments of two runs of fragments are those of the first followed by those of the second |
| Nlp.MatchFragments | backend/nlp.js:55-64 | the inner loop appends the trimmed relevant fragments until five are held; it reports full exactly when five were reached |
| Nlp.ExtractRelevantInfo | backend/nlp.js:48-70 | the extraction returns the first five relevant fragments across the articles, or all of them, or the split error when an article without content is reached first |
| Nlp.ExtractionFindsFive | backend/nlp.js:60-65 | once five matches are held after an article, the result is the first five matches of all articles |
| Nlp.RelevantInfoBound | backend/nlp.js:48-70 | at most five sentences are extracted |
| Nlp.RelevantInfoFails | backend/nlp.js:53-54 | extraction fails exactly when an article without content exists and fewer than five matches precede it |
| Nlp.RelevantInfoFromArticles | backend/nlp.js:53-64 | every extracted sentence is the trim of a fragment of some article that shares a token with the lower-cased query |
| Nlp.FormatResponse | backend/nlp.js:75-87 | the question and confidence pass through, the answer is trimmed, and the sources are the title and link of the first three articles |
| Nlp.ProcessResponse | backend/nlp.js:9-43 | the method returns the response the specification function gives: given answer, extracted sentences, default message or processing error |
| Nlp.ErrorOnlyFromExtraction | backend/nlp.js:19-42 | the error reply occurs exactly when the fallback is needed and extraction fails, and it carries the processing error message |
| Nlp.ResponseFields | backend/nlp.js:15-38 | an answered response carries the query, the score or 0 as confidence, and the first three sources |
| Nlp.KeepsSufficientAnswer | backend/nlp.js:15-30 | a trimmed answer of at least five characters that does not say "no answer" is returned unchanged |
| Nlp.AnswerNeverEmpty | backend/nlp.js:15-33 | the returned answer is never empty |
| Nlp.AnswerAtLeastFive | backend/nlp.js:15-33 | with a tokenizer that finds no token in blank text, the returned answer has at least five characters |
| Nlp.KeepsAnswerWhenNothingExtracted | backend/nlp.js:19-30 | when the fallback is needed but no sentence matches, a given answer of at least five characters is returned unchanged |
| Nlp.ShortAnswerBecomesDefault | backend/nlp.js:19-30 | an answer shorter than five characters, given or after the fallback, is replaced by the default message |
| Nlp.PipelineConfidenceIsZero | backend/server.js:65-68 | given the context pipeline's response, which has no `score`, the final confidence is 0 |

## Left out

- The boilerplate substitutions of `preprocessText` are an uninterpreted function. These are the regular expressions for navigation blocks and footer phrases at `backend/ragModel.js:18-19`. Only the white-space collapse and the trim that follow them are modelled.
- The Gemini client is the `Generator` parameter. The model does not capture network behaviour, the model name, or the `await`/`response` plumbing.
- The Universal Sentence Encoder load at `backend/ragModel.js:8-13` is left out. It is never used by the modelled functions.
- The `natural` word tokenizer is the `Tokenizer` parameter. Its splitting rules are not modelled.
- `Nlp.AnswerAtLeastFive`: holds only for a tokenizer that finds no token in blank text, as `natural`'s word tokenizer does. For an arbitrary tokenizer only `Nlp.AnswerNeverEmpty` holds: a blank matching sentence could make the joined answer lose characters to the final trim.
- `JsString.Lower`: lowers only ASCII `A`-`Z`. JavaScript's `toLowerCase` also maps other Unicode letters.
- Strings are sequences of characters. JavaScript measures `length` in UTF-16 code units, so characters outside the Basic Multilingual Plane count once here, not twice. The length limits of `RagModel.ChunkText` and `RagModel.CreateMegaChunk` are stated in characters.
- Console logging is left out. `console.log` and `console.error` have no effect on results.
- `async` scheduling is left out. The requests are modelled in the order the code awaits them.
- `Nlp.ProcessResponse`: the `catch` is modelled only for `split` on an article whose content is absent. Non-string `answer` or `content` values, a `null` content (whose message differs) and a non-array `articles` are not modelled.
- `Nlp.ResponseFields`: the score is a real number. A `NaN` or non-numeric `score` is not modelled.
- The HTTP server, the medical-topic check, scraping (`backend/server.js`, `backend/scraping.js`), the frontend and the Python test scripts are outside the model. Only the hand-off at `backend/server.js:65-68` is modelled, in `Nlp.PipelineConfidenceIsZero`.
