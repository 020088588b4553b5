# chinese-text-pipeline, text segmentation and document assembly

This project models the deterministic core of the chinese-text-pipeline
service in Dafny. The service turns a Chinese text into a nested JSON
document: paragraphs, then sentences, then words.

- `text_util.dfy` (module `TextUtil`) holds the Python string built-ins the
  pipeline relies on: `str.isspace`, `str.strip`, `str.split(sep)`,
  `sep.join` and `"".join`.
- `preprocess.dfy` (module `Preprocess`) covers `preprocess.py`:
  - `divide_into_paragraphs`, a pure function.
  - `divide_into_sentences`, a method with the source's scan loop. It is
    proved equal to an independent definition, `SentencesOf`. There, the
    boundaries are the positions just after a terminal mark 。！？ whose
    prefix holds an even number of quotes `"`, `“`, `”`.
  - `divide_text_into_chunks`, a method with the paragraph loop and the
    inner sentence-group loop. It is proved equal to the plan function
    `PlanChunks`, whose ordering, budget and failure properties are
    proved as lemmas.
  - The final `words.extend` step of `divide_text_into_words`.
- `json_creator.dfy` (module `JsonCreator`) covers
  `services/json_creator.py`:
  - The four record constructors.
  - `create_json_from_text`, a method with the source's nested loops and
    its shared cursor `words_index`. It is proved equal to the document
    function `Assemble`. That function's shape, numbering and word-handout
    properties are proved as lemmas.

The token counter `count_tokens` is the parameter `count: string -> nat`.
The budget `MAX_TOKENS` is the parameter `maxTokens`; the two
configurations set it to 5000 and 2000. The flat word list, which the
service gets from a language model, is a parameter of `CreateJsonFromText`.

`services/json_creator.py` imports its helpers from `services.preprocess`.
`services.preprocess` is not part of this model; it is taken to behave
like `preprocess.py`.

Three behaviours of the code are worth knowing, and the model proves them:

- The docstring of divide_text_into_chunks (preprocess.py:58-59, 63) says
  every chunk fits within the token limit. A sentence group of an
  oversized paragraph is not checked against the budget, though. An
  over-budget line without a terminal mark and without leading or
  trailing whitespace becomes a single chunk that is still over the
  budget (OversizedSentenceChunk).
- Words left over after the last sentence of the text are not put in the
  document (AssembleWords: the document's words are words[..words_index]
  unless words were handed out again).
- When the word list runs out before a sentence's length is reached,
  words_index stays put. The next sentence then starts from the same
  words again; one at least as long receives exactly the same words
  (RanOutRepeats).

The method rows below are proved equal to specification functions:
PlanChunks (preprocess.py:53-95), PackAll (preprocess.py:76-95),
PackParagraph (preprocess.py:77-93), Assemble
(services/json_creator.py:51-86), BuildParagraphs and ParagraphFor
(services/json_creator.py:63-84) and BuildSentences
(services/json_creator.py:66-82). The lemma rows state what those
functions promise.

## Model

| member | source | states |
|---|---|---|
| TextUtil.TrimStartSpec | preprocess.py:43 | Dropping leading whitespace keeps a suffix. Every dropped character is whitespace, and the result does not start with whitespace. |
| TextUtil.TrimEndSpec | preprocess.py:43 | Dropping trailing whitespace keeps a prefix. Every dropped character is whitespace, and the result does not end with whitespace. |
| TextUtil.StripKeepsLast | preprocess.py:43 | A string whose last character is not whitespace keeps that last character after strip(). |
| TextUtil.StripUnchanged | preprocess.py:43 | strip() leaves unchanged a string that neither starts nor ends with whitespace. |
| TextUtil.Split | preprocess.py:18 | str.split('\n') yields at least one piece, and no piece contains the separator. |
| TextUtil.JoinSplit | preprocess.py:18 | Joining the pieces of a split with the separator gives the original string back. |
| TextUtil.ConcatSplit | preprocess.py:18 | Concatenating the pieces of a split gives the string with every separator removed. |
| TextUtil.SplitWithoutSeparator | preprocess.py:18 | A string without the separator splits into exactly itself. |
| TextUtil.SplitAtSeparator | preprocess.py:18 | The pieces of a + '\n' + b are the pieces of a followed by the pieces of b. |
| Preprocess.KeepNonEmpty | preprocess.py:16-20 | The `if paragraph` filter keeps exactly the non-empty pieces and nothing else. |
| Preprocess.KeepNonEmptySingle | preprocess.py:16-20 | The filter keeps one piece exactly when it is non-empty. |
| Preprocess.KeepNonEmptyAppend | preprocess.py:16-20 | The filter distributes over concatenation, so it keeps the pieces in order and with their repetitions. |
| Preprocess.ConcatKeepNonEmpty | preprocess.py:16-20 | The filter loses no characters: the kept pieces concatenate to the same string as all the pieces. |
| Preprocess.DivideIntoParagraphs | preprocess.py:14-20 | No paragraph is empty or contains '\n'. The paragraphs are exactly the non-empty pieces of text.split('\n'). An empty text gives no paragraphs. |
| Preprocess.ParagraphsCoverText | preprocess.py:14-20 | The paragraphs, concatenated in order, are the text with its line breaks removed. |
| Preprocess.SingleLineParagraph | preprocess.py:14-20 | A non-empty text without a line break is a single paragraph. |
| Preprocess.ParagraphsAtLineBreak | preprocess.py:14-20 | The paragraphs of a + '\n' + b are the paragraphs of a, in order, followed by those of b. With SingleLineParagraph and the empty text, this fixes the paragraph list of every text, order and repetitions included. |
| Preprocess.ParagraphsInOrderExample | preprocess.py:14-20 | The paragraphs of "ab\na\nb" are exactly ["ab", "a", "b"]. |
| Preprocess.QuoteCountAppend | preprocess.py:40 | The number of quote characters is additive over concatenation. |
| Preprocess.CutsUpToExact | preprocess.py:37-45 | The boundary list holds exactly the mark positions whose prefix has even quote parity. |
| Preprocess.SentencesOf | preprocess.py:23-50 | A paragraph yields no sentence exactly when it is empty. A non-empty paragraph with no accepted boundary yields exactly [paragraph.strip()]. |
| Preprocess.LastCutEven | preprocess.py:35-45 | The cursor last_end always sits at a prefix with an even number of quotes. |
| Preprocess.ParityFrom | preprocess.py:40-42 | From an even-parity cursor, a mark is an accepted boundary exactly when the span since the cursor has even quote parity. |
| Preprocess.ScanStateMeaning | preprocess.py:35-45 | After the first n characters, the loop state (sentences so far, last_end) is the stripped spans up to the last boundary at or before n, and that boundary. |
| Preprocess.ScanFinal | preprocess.py:47-50 | When the scan ends, the remainder after last_end, if non-empty, is stripped and appended, and that gives SentencesOf. |
| Preprocess.DivideIntoSentences | preprocess.py:23-50 | The scan loop returns exactly SentencesOf(paragraph). |
| Preprocess.BoundaryRule | preprocess.py:37-45 | A mark becomes a boundary exactly when the text since the previous accepted boundary has an even quote count. Otherwise nothing is emitted there. |
| Preprocess.ConcatPieces | preprocess.py:35-45 | The spans cut at the boundaries are contiguous and cover the paragraph up to the last boundary. |
| Preprocess.SpansCoverParagraph | preprocess.py:35-48 | The spans plus the remainder are contiguous, in order, and concatenate to the whole paragraph. |
| Preprocess.ClosedSpan | preprocess.py:40-45 | Every span emitted inside the loop ends with 。！？ and holds an even number of quotes. |
| Preprocess.SentencesEndWithMarks | preprocess.py:42-48 | There is one sentence per boundary, plus one for a non-empty remainder. Every sentence emitted inside the loop ends with 。！？, and its span has even quote parity. |
| Preprocess.ClosedSentence | preprocess.py:43-44 | The k-th loop sentence, after strip(), still ends with its terminal mark. |
| Preprocess.NoMarksNoCuts | preprocess.py:37 | A paragraph without terminal marks has no boundaries. |
| Preprocess.OnlyCut | preprocess.py:37-45 | A paragraph whose only accepted position is e has exactly the boundary list [e]. |
| Preprocess.SingleCutSentences | preprocess.py:37-48 | A paragraph whose only boundary is its end yields exactly [paragraph.strip()]. |
| Preprocess.QuotedMarksKeptInside | preprocess.py:40-45 | Marks inside a quotation are not boundaries. A paragraph a “b” c is one stripped sentence when its two quotes are the only ones, a holds no mark, b may hold any marks, and c holds a single mark, at its end. |
| Preprocess.CeilDiv | preprocess.py:70 | math.ceil(a / b) is the least q with q * b >= a. |
| Preprocess.GroupsCount | preprocess.py:91-93 | range(0, n, size) yields ceil(n / size) groups. |
| Preprocess.GroupAt | preprocess.py:91-93 | Group i is "".join(sentences[i*size : min(n, i*size + size)]), so only the last group can be shorter. |
| Preprocess.AppendGroups | preprocess.py:91-93 | The inner loop appends exactly the sentence groups, in order, after the existing chunks. |
| Preprocess.PackOversized | preprocess.py:87-93 | A paragraph at or over the budget becomes the groups of its sentences, or the range error when the group size is 0. |
| Preprocess.PackStep | preprocess.py:77-93 | One loop iteration has one of three outcomes. It glues a short paragraph onto the last chunk when that stays under the budget, starts a new chunk with it otherwise, or appends an oversized paragraph's sentence groups. |
| Preprocess.PackParagraphs | preprocess.py:72-95 | The paragraph loop returns the chunk plan PackAll from an empty chunk list. It stops at the first range error. |
| Preprocess.DivideTextIntoChunks | preprocess.py:53-95 | A text under the budget is returned unchanged as [text]. Otherwise the result is the plan over the given paragraphs, or over the text's paragraphs when none are given. |
| Preprocess.CeilDivZero | preprocess.py:89 | The sentence-group size is 0 exactly when there are no sentences. |
| Preprocess.PackParagraphFails | preprocess.py:87-91 | One paragraph raises the range error exactly when it is empty and its count is at or over the budget. |
| Preprocess.PackAllFails | preprocess.py:76-93 | The paragraph loop raises the range error exactly when some paragraph is empty and an empty string counts at or over the budget. |
| Preprocess.PlanFailsOnlyOnEmptyLongParagraph | preprocess.py:65-95 | The chunking raises an error exactly when the text is over budget, an effective paragraph is empty, and an empty string counts at or over the budget. Recomputed paragraphs never raise it. |
| Preprocess.GroupsConcat | preprocess.py:91-93 | The sentence groups concatenate to the concatenated sentences. |
| Preprocess.PackStepKeepsOrder | preprocess.py:79-93 | One iteration extends the concatenated chunks by the paragraph, or by "".join of its sentences. |
| Preprocess.PackAllKeepsOrder | preprocess.py:76-95 | Ordering is preserved. The chunks concatenate to the short paragraphs and the joined sentences of the long ones, in order. |
| Preprocess.PlanKeepsOrder | preprocess.py:65-95 | The same for the whole function, including the unchanged-text case. |
| Preprocess.PackAllWithinBudget | preprocess.py:79-85 | Suppose the counter is subadditive and every paragraph is under the budget. Then the loop succeeds and every chunk is under the budget. |
| Preprocess.PlanWithinBudget | preprocess.py:65-85 | The same for the whole function. |
| Preprocess.PackStepExtends | preprocess.py:79-93 | An iteration changes only the last chunk, by extending it, or appends chunks after it. |
| Preprocess.PackNeverRevisits | preprocess.py:76-95 | Chunks before the last are never changed. The last one is only ever extended. |
| Preprocess.LongParagraphChunkCount | preprocess.py:88-93 | A paragraph with sentences is split into at least one and at most count_of_chunking groups. |
| Preprocess.OversizedParagraphKeptWhole | preprocess.py:87-93 | An oversized paragraph without marks becomes a single chunk, its stripped text. |
| Preprocess.OversizedSentenceChunk | preprocess.py:65-93 | An over-budget one-line text without marks gives one chunk. If it has no surrounding whitespace, that chunk is still at or over the budget. |
| Preprocess.CollectWords | preprocess.py:118-120 | words.extend over the responses yields their word lists concatenated in chunk order. |
| JsonCreator.CreateDefaultJson | services/json_creator.py:8-16 | The document holds the full text, no translation and no paragraphs. |
| JsonCreator.CreateParagraphJson | services/json_creator.py:19-27 | The paragraph record has the given id and text, no translation or pinyin, and no sentences. |
| JsonCreator.CreateSentenceJson | services/json_creator.py:30-37 | The sentence record has the given id and text, no translation, and no words. |
| JsonCreator.CreateWordJson | services/json_creator.py:40-48 | The word record has the given text and index, with pinyin, part of speech and translation unset. |
| JsonCreator.FirstReachSpec | services/json_creator.py:72-80 | The break position is the least end e at which the summed len(word) of words[start..e] reaches the threshold. None means no end reaches it. |
| JsonCreator.MakeWordsSpec | services/json_creator.py:72-76 | The word records for a run are indexed 0..k-1, unannotated, and carry the run's words in order. |
| JsonCreator.SentenceFor | services/json_creator.py:68-80 | A sentence record keeps its id and text and has no translation. Its words are indexed from 0. The cursor never decreases and stays within the list. |
| JsonCreator.SentenceWords | services/json_creator.py:70-80 | A sentence's words are the contiguous run from the cursor, and every proper prefix falls short of len(sentence). If the cursor moves, it moves past that run, which reaches the threshold. If it stays, the run is everything left and falls short. With no words left, the sentence gets none. |
| JsonCreator.RanOutRepeats | services/json_creator.py:72-80 | When the words run out, the cursor stays. A next sentence at least as long receives the same remaining words again. |
| JsonCreator.BuildSentences | services/json_creator.py:66-82 | The first n sentences of a paragraph give n sentence records, and the cursor after them never moves back and stays within the word list. |
| JsonCreator.ParagraphFor | services/json_creator.py:63-84 | A paragraph record keeps its id and text, and the cursor after its sentences never moves back and stays within the word list. |
| JsonCreator.BuildParagraphs | services/json_creator.py:63-84 | The first n paragraphs give n paragraph records, and the cursor after them stays within the word list. |
| JsonCreator.BuildSentencesShape | services/json_creator.py:66-82 | Within a paragraph, sentence ids run 0..M-1 and the sentence texts follow divide_into_sentences, in order. |
| JsonCreator.ParagraphShape | services/json_creator.py:63-84 | A paragraph record has no translation or pinyin. It holds its sentences in order, numbered from 0. |
| JsonCreator.BuildParagraphsNumbered | services/json_creator.py:58-84 | Paragraph ids run 0..N-1, one per paragraph of the text, in order, and are unannotated. |
| JsonCreator.BuildParagraphsHold | services/json_creator.py:63-84 | Paragraph i holds the sentences of paragraph i. |
| JsonCreator.AssembleShape | services/json_creator.py:51-86 | fullText is the input text. There is no translation anywhere. There is one paragraph per paragraph of the text, with dense ids, each holding its own sentences numbered from 0. An empty text gives no paragraphs. |
| JsonCreator.BuildSentencesWords | services/json_creator.py:68-82 | The words handed out within a paragraph are exactly the words the cursor passed over, or they start with every word from the paragraph's first cursor to the end of the list. |
| JsonCreator.BuildParagraphsWords | services/json_creator.py:63-84 | The same across all paragraphs, from cursor 0: exactly words[..words_index], or a sequence that starts with the whole word list. |
| JsonCreator.AssembleWords | services/json_creator.py:61-86 | Reading the document's words in order gives a sequence that starts with words[..words_index]. It is exactly words[..words_index], or it starts with the whole word list, when words were handed out again after the list ran out. |
| JsonCreator.GatherWords | services/json_creator.py:69-80 | The word loop, with its break, builds exactly the sentence record and next cursor of SentenceFor. |
| JsonCreator.FillSentences | services/json_creator.py:66-82 | The sentence loop fills the paragraph record with exactly the sentence records of BuildSentences, in order, and returns its final cursor. |
| JsonCreator.CreateJsonFromText | services/json_creator.py:51-86 | The nested loops return exactly the document Assemble(text, words). |

## Left out

- count_tokens and tiktoken: the token counter is an abstract function parameter. The budget is a parameter, not the module constant.
- ask_openai, the OpenAI client, asyncio.gather and json.loads: these are network, concurrency and parsing. divide_text_into_words is modelled only by its final `words.extend` loop (CollectWords), over already-parsed responses. The word list is an input to CreateJsonFromText.
- The FastAPI endpoint, environment loading and prompt configuration: this is plumbing with no logic to model.
- services.preprocess is not part of this model. It is taken to behave like preprocess.py.
- str.strip and str.isspace are modelled on the fixed set of characters Python treats as whitespace. There is no Unicode database.
- Preprocess.CeilDiv: `ceil(a / b)` goes through float division in the source. It is modelled as exact integer ceiling division, so float rounding for huge counts is not captured.
- The regex scan is modelled as a scan over every character that tests for 。！？. A regex match position and that test pick the same positions.
- The `paragraphs` argument of divide_text_into_chunks is a sequence. None and the empty list are both the empty sequence, and the source treats both the same (`if not paragraphs`).
- The range error of `range(0, n, 0)` is the RangeStepZero result, not an exception.
- In-place mutation of nested dict entries (`chunks[-1] += paragraph`, `sentence_json["words"].append`) is modelled on immutable values. The code builds each record fresh, so no aliasing is lost.
