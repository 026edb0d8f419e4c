# BiegeAI backend core in Dafny

This project models the deterministic core of the BiegeAI question-answering
backend:

- `Conversation` (`conversation.dfy`) is the in-memory conversation store. It covers:
  - session lookup and creation, with generated `default_<seconds>` ids;
  - expiry and least-recently-active eviction;
  - message appending with the time-gap rollover and the per-session message cap;
  - the character-budgeted conversation context and its debug statistics.
- `Preprocessor` (`preprocessor.dfy`) is the chat-history cleanup applied to sheet
  documents. It covers:
  - the three segmentation strategies: timestamp pairs, reply indicators and
    blank-line runs, with the single-segment fallback;
  - the per-segment rewrite;
  - the "meaningful content" filter;
  - recombination with `---` separators and newline collapsing;
  - the per-document and per-batch pipeline.
- `RagMetadata` (`metadata.dfy`) is the metadata handling of the advanced
  retrieval service. It covers:
  - base-document construction and chunk annotation in `create_smart_chunks`;
  - the JSON-span extraction and default record of `generate_metadata_with_ai`;
  - `sanitize_metadata`;
  - the right-biased merge in `enhance_chunks_with_ai_metadata`.
- `Sheets` (`sheets.dfy`) is the Google Sheets document source. It covers the
  authentication and configuration guards, and the parsing of the `A` column into
  documents, with the header test.
- `UrlTool` (`url_tool.dfy`) is the URL content tool. It covers scheme prefixing,
  `re.sub(r'<[^>]+>', '', ...)`, whitespace collapsing and the 500-character
  preview with its ellipsis.
- `CalculatorTool` (`calculator_tool.dfy`) is the calculator tool: the character
  whitelist in front of the evaluator.
- `Ask` (`ask.dfy`) is the `/ask` handler. It covers:
  - the question check;
  - the choice between the retrieval answer and the tool-using agent;
  - the reported `final_method`;
  - the mapping of exceptions to quota and generic error answers.

`Text` (`text.dfy`) and `Wrappers` (`wrappers.dfy`) hold shared helpers. `Text` covers:
- Python's `str.strip`, `str.split()` and `str.lower` on ASCII;
- `in` on strings, `"sep".join`, `str.split('\n')`;
- decimal rendering.

`Wrappers` holds `Option`, `Result` and an order-preserving map-and-filter.

Everything outside the program's own logic is a function parameter:
- the language model, and the LangChain chain built on it;
- the two `re.split` calls of the segmenter;
- `json.loads` and `json.dumps`;
- Python's `eval`;
- the HTTP request;
- the Sheets API calls.

The clock is an explicit argument `now`, in whole milliseconds. The source reads
`time.time()` as float seconds. Each operation reads the clock once.

The session store is a sequence of sessions in dict insertion order. That order
decides which of two equally idle sessions the stable sort evicts first.

## Model

| member | source | states |
|---|---|---|
| Conversation.Lookup | backend/conversation_manager.py:149-152 | the session found is stored under the requested id, and nothing is found exactly when no stored session has that id |
| Conversation.LookupMember | backend/conversation_manager.py:149-152 | with unique keys, every stored session is found under its own id |
| Conversation.Put | backend/conversation_manager.py:99-104 | dict assignment: the id now maps to the new session, every other id maps to what it did before, keys stay unique, and the store grows only for a new id |
| Conversation.GenerateSessionId | backend/conversation_manager.py:58-61 | a generated id is `default_` followed by decimal digits |
| Conversation.GeneratedIdsCollideWithinSecond | backend/conversation_manager.py:58-61 | two generated ids are equal exactly when they are generated in the same whole second |
| Conversation.RemoveExpired | backend/conversation_manager.py:63-74 | phase one keeps exactly the sessions idle for no more than `session_timeout_minutes`, with keys unique |
| Conversation.FilterKeepsAll | backend/conversation_manager.py:68-73 | when nothing has expired, phase one leaves the store unchanged |
| Conversation.RemoveExpiredDropsOne | backend/conversation_manager.py:68-73 | one expired session is enough to make phase one shrink the store |
| Conversation.OldestIndex | backend/conversation_manager.py:77-84 | picks a session whose `last_activity` is minimal, and among equals the first in dict order, which is the one the stable sort puts first |
| Conversation.RemoveAt | backend/conversation_manager.py:83-85 | deleting one key removes only that session and keeps keys unique |
| Conversation.EvictOldest | backend/conversation_manager.py:76-86 | phase two leaves exactly `max_sessions` sessions when over capacity and is a no-op otherwise; every evicted session was no more recently active than any kept one |
| Conversation.Cleanup | backend/conversation_manager.py:63-86 | after cleanup: every session is live and at most `max_sessions` remain; a live session is dropped only if no kept session is older; when the live sessions fit, all of them are kept |
| Conversation.GetOrCreateSession | backend/conversation_manager.py:88-106 | the resulting id is the given one (a generated one when none is given); a live session under it is kept with its activity refreshed, otherwise a new empty session is created at `now`; under every other id the store holds exactly the sessions that survived cleanup; at most `max_sessions + 1` sessions remain |
| Conversation.PutStaysLive | backend/conversation_manager.py:90-104 | inserting after cleanup leaves every other session a live one from the original store, and keeps every survivor under another id |
| Conversation.CreationCanExceedCapacity | backend/conversation_manager.py:88-104 | with `max_sessions` live sessions, creating a session under a new id leaves `max_sessions + 1` sessions, because eviction runs before the insertion |
| Conversation.SameSecondCreationOverwrites | backend/conversation_manager.py:97-104 | an id-less creation in the same second as an existing generated session replaces that session with an empty one, without growing the store |
| Conversation.KeepRecent | backend/conversation_manager.py:138-141 | the trimmed list is the most recent `max_messages_per_session` messages, in order |
| Conversation.Recover | backend/conversation_manager.py:110-112 | after the missing-session step, the session to write to exists and keys are unique |
| Conversation.Target | backend/conversation_manager.py:114-125 | after the time-gap rollover, the session to write to exists and keys are unique |
| Conversation.AddMessage | backend/conversation_manager.py:108-145 | always returns `True`; the receiving session exists afterwards with `last_activity` now, holds at most `max_messages_per_session` messages, and (when that cap is positive) ends with the new message stamped with its id |
| Conversation.AddMessageKeepsRecentSuffix | backend/conversation_manager.py:127-142 | the receiving session holds the most recent suffix of its previous messages plus the new one, of length `min(n + 1, max_messages_per_session)` |
| Conversation.AddMessageToLiveSession | backend/conversation_manager.py:114-136 | a live session with a recent last message receives the message in place, and no other session changes |
| Conversation.AddMessageRecreatesMissing | backend/conversation_manager.py:110-112 | an unknown non-empty id is recreated under that same id, created now and holding just the new message |
| Conversation.AddMessageRollsOverAfterGap | backend/conversation_manager.py:116-125 | after a gap longer than `consecutive_timeout_minutes`, the message goes to a freshly generated session; the old session is untouched or evicted |
| Conversation.RecentHistory | backend/conversation_manager.py:158-172 | the backward scan over the rendered messages yields the most recent lines that the reference `FitFromEnd` selects, and its running total is their summed length |
| Conversation.ScanFromEnd | backend/conversation_manager.py:161-172 | the loop walking back from the newest line stops where the reference `FitFromEnd` stops, and the kept lines are that suffix with their summed length |
| Conversation.GetConversationContext | backend/conversation_manager.py:147-194 | an unknown or empty session gives `""` and the three-key statistics; otherwise the context is the fitting history then the question line (when it fits) joined by newlines, and the statistics report their summed length, their count, the session size and the as-written truncation flag |
| Conversation.FitFromEndBudget | backend/conversation_manager.py:163-172 | the included history suffix fits the budget, and the next older line would not have fitted |
| Conversation.ContextWithinBudget | backend/conversation_manager.py:158-178 | the reported `context_length` never exceeds `max_context_length`, unless nothing was included |
| Conversation.ContextTextLength | backend/conversation_manager.py:180-184 | the joined context is one character longer than `context_length` per line after the first, since the budget ignores the newlines |
| Conversation.TruncationFlagMissesDroppedMessage | backend/conversation_manager.py:185-187 | a two-message session where the older message is dropped but the question fits reports `context_truncated` false |
| Conversation.HistoryTruncated | backend/conversation_manager.py:185-187 | the corrected flag is true exactly when some session message is missing from the history |
| Conversation.IncludedMessagesAreHistoryLines | backend/conversation_manager.py:161-178 | the context lines begin with the rendered lines of exactly the included messages, in order; at most the question line follows them |
| Preprocessor.StrippedLines | backend/services/document_preprocessor.py:252-257 | every line considered is stripped and free of newlines |
| Preprocessor.ProcessLineSegments | backend/services/document_preprocessor.py:250-275 | every segment produced is a `line_segment` |
| Preprocessor.LineRunsAreNonEmptyFields | backend/services/document_preprocessor.py:256-273 | the runs are exactly the non-empty fields between blank lines, so every run is maximal |
| Preprocessor.LineRunsShape | backend/services/document_preprocessor.py:256-273 | every run is non-empty and holds only non-empty lines, and the runs concatenated are the non-empty lines in input order |
| Preprocessor.LineSegmentLines | backend/services/document_preprocessor.py:250-275 | each line segment is non-empty text whose `\n`-separated lines are exactly its run: non-empty, stripped, in order |
| Preprocessor.ProcessReplySplits | backend/services/document_preprocessor.py:224-248 | every segment is stripped and non-empty, all but the last are reply segments, and there is at most one segment per indicator plus one |
| Preprocessor.ReplySegmentsClosedForm | backend/services/document_preprocessor.py:224-248 | the loop equals the reference segmentation: leading text (if not blank), then one piece per indicator, running to the next indicator |
| Preprocessor.PiecesStartWithOpener | backend/services/document_preprocessor.py:229-246 | each reference piece starts with the indicator that opened it and records the indicator that closed it; only the last piece is final |
| Preprocessor.TimestampPairs | backend/services/document_preprocessor.py:193-201 | every segment of the comprehension is a `timestamp_segment` |
| Preprocessor.TimestampPairsClosedForm | backend/services/document_preprocessor.py:193-201 | a split with n captured timestamps gives exactly n segments, segment k pairing the k-th text piece with the k-th timestamp |
| Preprocessor.TimestampTrailingTextIgnored | backend/services/document_preprocessor.py:199-200 | the text after the last timestamp is in no segment: changing it changes nothing |
| Preprocessor.ExtractSegments | backend/services/document_preprocessor.py:185-222 | the first strategy that applies is used and its segments are returned as they are; only when it finds none is the result the single fallback segment holding the whole content; segment kinds follow the strategy |
| Preprocessor.MeaningfulCharacterisation | backend/services/document_preprocessor.py:402-414 | text is kept exactly when it strips to at least 20 characters that are not all emoji; the word patterns and `FILTER_OUT` can never fire at that length |
| Preprocessor.CollapseLeavesNoTriple | backend/services/document_preprocessor.py:433 | after `re.sub(r'\n{3,}', '\n\n', ...)` no three newlines follow each other |
| Preprocessor.CollapseFixpoint | backend/services/document_preprocessor.py:433 | collapsing leaves text without a triple newline unchanged, so it is idempotent |
| Preprocessor.CombineSegments | backend/services/document_preprocessor.py:416-436 | no segments give `""`; otherwise the combined text is stripped and free of triple newlines |
| Preprocessor.CombineSingle | backend/services/document_preprocessor.py:416-436 | a single stripped segment without triple newlines comes back unchanged |
| Preprocessor.CombineClean | backend/services/document_preprocessor.py:428-434 | segments that are non-empty, stripped and free of triple newlines combine to exactly their join with `\n\n---\n\n`: the clean-up changes nothing |
| Preprocessor.CombineBlank | backend/services/document_preprocessor.py:425-434 | the combined text is blank exactly when there are no segments or a single blank one, because the separator holds `-` and the clean-up keeps every non-newline character |
| Preprocessor.CollapseSameChars | backend/services/document_preprocessor.py:433 | collapsing newline runs keeps exactly the characters the text had |
| Preprocessor.ProcessConversationSegment | backend/services/document_preprocessor.py:277-309 | a blank segment gives nothing; otherwise the model's rewrite is returned exactly when it is meaningful, and a returned rewrite is never blank |
| Preprocessor.ProcessSegments | backend/services/document_preprocessor.py:117-149 | at most one result per segment, and every result is meaningful |
| Preprocessor.ProcessSegmentsCollects | backend/services/document_preprocessor.py:128-141 | processing the segments is the order-preserving collection of each segment's own result |
| Preprocessor.ProcessSegmentsConcat | backend/services/document_preprocessor.py:128-141 | processing a concatenation of segment lists concatenates the results |
| Preprocessor.ProcessSegmentsSingle | backend/services/document_preprocessor.py:128-141 | one segment yields nothing exactly when it is blank or its rewrite is not meaningful, and otherwise exactly its rewrite |
| Preprocessor.PreprocessSingleDocument | backend/services/document_preprocessor.py:77-113 | when no segment survives, the original content is returned; otherwise the result is the combination of the surviving rewrites, stripped and free of triple newlines; non-blank content never yields a blank result |
| Preprocessor.ProcessOne | backend/services/document_preprocessor.py:38-52 | a document is dropped exactly when its content is blank or missing; a kept document holds the processed text of its content, is not blank and records the original and processed lengths |
| Preprocessor.PreprocessDocuments | backend/services/document_preprocessor.py:26-75 | at most one result per input document; every result is non-blank and records its own length |
| Preprocessor.PreprocessDocumentsConcat | backend/services/document_preprocessor.py:66-68 | order is preserved: processing a concatenation concatenates the results |
| Preprocessor.PreprocessSingleton | backend/services/document_preprocessor.py:38-52 | one document gives exactly one result when its content is not blank and none otherwise, carrying the original length |
| Preprocessor.PreprocessDocumentsKeepsNonBlank | backend/services/document_preprocessor.py:38-75 | the results correspond one to one, in order, to the documents with non-blank content, each holding that document's processed text and both lengths |
| RagMetadata.SanitizeValue | backend/services/advanced_rag_service.py:163-175 | scalars are kept, lists become their items' texts joined by `, `, dicts their JSON text, anything else its `str()`; the result is always scalar |
| RagMetadata.Sanitize | backend/services/advanced_rag_service.py:160-176 | the sanitised dict has the same keys, only scalar values, and scalars unchanged; it raises exactly when some dict value cannot be dumped |
| RagMetadata.SanitizeList | backend/services/advanced_rag_service.py:166-168 | an empty list becomes `""`, and a list's text is its items' texts plus two characters per separator |
| RagMetadata.SanitizeOfScalar | backend/services/advanced_rag_service.py:163-165 | all-scalar metadata is returned unchanged |
| RagMetadata.SanitizeIdempotent | backend/services/advanced_rag_service.py:160-176 | sanitising sanitised metadata changes nothing |
| RagMetadata.Merge | backend/services/advanced_rag_service.py:192 | the merged keys are the union, and generated values win over the chunk's own |
| RagMetadata.JsonSpan | backend/services/advanced_rag_service.py:132-134 | the greedy match is a slice of the response that starts with `{`, ends with `}`, has no `{` before it and no `}` after it |
| RagMetadata.JsonSpanExists | backend/services/advanced_rag_service.py:132-133 | a match exists exactly when some `{` precedes some `}` |
| RagMetadata.GenerateMetadata | backend/services/advanced_rag_service.py:100-158 | a failing chain, a response without a JSON span, or an unparsable span gives the default record; otherwise the parsed object |
| RagMetadata.DefaultMetadataIsClean | backend/services/advanced_rag_service.py:136-144 | the default record has the seven fixed keys and passes sanitisation unchanged |
| RagMetadata.BaseDocFields | backend/services/advanced_rag_service.py:71-80 | a base document holds the non-empty stripped text and the three keys, with the input position and the unstripped length |
| RagMetadata.BaseDocsFromNonBlank | backend/services/advanced_rag_service.py:70-80 | every base document comes from a non-blank input at its `document_id` |
| RagMetadata.BaseDocsOrdered | backend/services/advanced_rag_service.py:70-80 | base documents keep input order: their `document_id`s strictly increase |
| RagMetadata.BaseDocsComplete | backend/services/advanced_rag_service.py:70-80 | every non-blank input has its base document |
| RagMetadata.Annotate | backend/services/advanced_rag_service.py:86-91 | chunk k of n gets `chunk_id` k, `total_chunks` n and its own length; its text and other keys are kept |
| RagMetadata.CreateSmartChunks | backend/services/advanced_rag_service.py:59-98 | no splitter or a failing split gives `[]`; otherwise the annotated chunks of the base documents |
| RagMetadata.EnhanceOne | backend/services/advanced_rag_service.py:184-199 | the chunk text is kept; the metadata is the chunk's merged with its sanitised generated metadata, generated keys winning |
| RagMetadata.EnhanceAll | backend/services/advanced_rag_service.py:184-200 | the loop succeeds exactly when every chunk's sanitising succeeds, and then gives each chunk's enhancement in order |
| RagMetadata.EnhanceChunks | backend/services/advanced_rag_service.py:178-206 | same length and texts, every original key kept; any failure returns the input chunks unchanged |
| RagMetadata.ChainFailureOverridesSource | backend/services/advanced_rag_service.py:148-158 | when the chain fails for every chunk, each chunk's metadata is its own merged with the default record, so `source` becomes `unknown` |
| RagMetadata.ChainFailureGivesDefault | backend/services/advanced_rag_service.py:148-158 | a failing chain gives the default record as the sanitised metadata |
| Sheets.Authenticate | backend/services/google_sheets.py:25-53 | authentication succeeds exactly when the variable is set, its JSON parses and the build succeeds |
| Sheets.RowDocument | backend/services/google_sheets.py:87-91 | a row gives a document exactly when its first cell is present and not blank; the document is that cell stripped |
| Sheets.RowDocuments | backend/services/google_sheets.py:85-91 | at most one document per row, each non-empty and stripped; none at all exactly when no row has content |
| Sheets.RowDocumentsAppend | backend/services/google_sheets.py:86-91 | rows are handled one by one and in order |
| Sheets.RowDocumentsSingle | backend/services/google_sheets.py:87-91 | one row gives its stripped first cell or nothing, and cells after the first are ignored |
| Sheets.ParseValues | backend/services/google_sheets.py:76-91 | no values give no documents; an empty first row raises; otherwise at most one document per row after the header |
| Sheets.HeaderSkippedIffNamed | backend/services/google_sheets.py:83-86 | the first row is skipped exactly when its first cell names the column; that row's own document is the only difference |
| Sheets.HeaderTestUnstripped | backend/services/google_sheets.py:83 | the header test ignores case but not padding |
| Sheets.EmptyFirstRowLosesAll | backend/services/google_sheets.py:83-101 | an empty first row makes the whole fetch return no documents |
| Sheets.GetDocuments | backend/services/google_sheets.py:55-101 | no service or no spreadsheet id, or a failing request, gives `[]`; otherwise the parsed rows; every document is non-empty and stripped |
| Sheets.NotReadyNeverFetches | backend/services/google_sheets.py:57-68 | without a service or an id, the result does not depend on the API, and `add_document` fails |
| Sheets.DocumentFromRow | backend/services/google_sheets.py:85-91 | every document is the stripped first cell of some row with content |
| Sheets.RowsGiveDocuments | backend/services/google_sheets.py:85-91 | every row with content contributes its document |
| Sheets.AddDocument | backend/services/google_sheets.py:103-141 | `add_document` succeeds exactly when the guards pass and the append reports its updates |
| UrlTool.NormalizeUrl | backend/agent/tools/url_tool.py:33-34 | the URL used always has a scheme; a URL that has one is kept, any other gets `https://` |
| UrlTool.NormalizeIdempotent | backend/agent/tools/url_tool.py:33-34 | normalising twice is normalising once |
| UrlTool.UpperCaseSchemeNotRecognised | backend/agent/tools/url_tool.py:33-34 | the scheme test is case-sensitive: `HTTP://x` gets a second scheme |
| UrlTool.TagLength | backend/agent/tools/url_tool.py:42 | a match of `<[^>]+>` is a `<`, at least one non-`>` character and the first `>`; there is none exactly when that shape is absent |
| UrlTool.StripTags | backend/agent/tools/url_tool.py:42 | removing tags never lengthens the text or introduces characters |
| UrlTool.StripTagsTagFree | backend/agent/tools/url_tool.py:42 | the result holds no tag: removing tags never glues the surrounding text into a new one |
| UrlTool.StripTagsOfTagFree | backend/agent/tools/url_tool.py:42 | text without tags is unchanged |
| UrlTool.StripTagsIdempotent | backend/agent/tools/url_tool.py:42 | removing tags twice is removing them once |
| UrlTool.EmptyBracketsSurvive | backend/agent/tools/url_tool.py:42 | `<>` is not a tag and survives |
| UrlTool.BoldTagsRemoved | backend/agent/tools/url_tool.py:42 | both tags of `<b>…</b>` go and the text between them stays |
| UrlTool.PlainTextKept | backend/agent/tools/url_tool.py:42 | text without `<` is kept as it is in front of whatever follows |
| UrlTool.CloseTagRemoved | backend/agent/tools/url_tool.py:42 | a lone closing tag is removed entirely |
| UrlTool.CollapseSpaces | backend/agent/tools/url_tool.py:43 | the collapsed text is stripped, has no whitespace but single spaces, and no two spaces in a row |
| UrlTool.CollapseKeepsWords | backend/agent/tools/url_tool.py:43 | collapsing keeps the words, so it is idempotent |
| UrlTool.CleanContent | backend/agent/tools/url_tool.py:42-43 | the cleaned page has no tags and collapsed whitespace: collapsing tag-free text creates no tag |
| UrlTool.CollapseKeepsAngles | backend/agent/tools/url_tool.py:43 | whitespace collapsing brings in no `>` and keeps every `<` that was followed at once by `>`, so tag-free text stays tag-free |
| UrlTool.Preview | backend/agent/tools/url_tool.py:45 | the preview is a prefix of at most 500 characters, the whole text when it is that short |
| UrlTool.FetchUrlContent | backend/agent/tools/url_tool.py:29-48 | a success is `Content from <url>: `, then exactly the first 500 characters of the cleaned page (all of it when shorter), then `...`; a failure is the error prefix followed by the error text |
| UrlTool.ShortContentKeepsEllipsis | backend/agent/tools/url_tool.py:45 | short content appears in full and is still followed by `...` |
| UrlTool.OutcomesDistinguishable | backend/agent/tools/url_tool.py:45-48 | the answer starts with `Content from ` exactly when the fetch succeeded |
| CalculatorTool.Calculate | backend/agent/tools/calculator_tool.py:27-40 | the rejection text is returned exactly when a character is outside the whitelist; a success starts with the expression, a failure carries the error text |
| CalculatorTool.RejectedNeverEvaluated | backend/agent/tools/calculator_tool.py:31-33 | a rejected expression never reaches the evaluator |
| CalculatorTool.EmptyExpressionEvaluated | backend/agent/tools/calculator_tool.py:31-37 | the empty expression passes the whitelist and is evaluated |
| CalculatorTool.OnlySpaceAllowed | backend/agent/tools/calculator_tool.py:31-33 | any whitespace other than a plain space gets the expression rejected |
| CalculatorTool.SuccessReadsBack | backend/agent/tools/calculator_tool.py:36-37 | from a success, the expression and the value can be read back around the first `=`, since the whitelist excludes `=` |
| CalculatorTool.ReadBack | backend/agent/tools/calculator_tool.py:37 | an answer built as prefix, expression, ` = ` and value splits back into exactly those four parts at its first `=` when nothing before the separator is an `=` |
| CalculatorTool.AnswersDistinguishable | backend/agent/tools/calculator_tool.py:33-40 | the three kinds of answer never share a prefix |
| Ask.FinalMethod | backend/main.py:55 | "MCP" is reported exactly when the answer contains one of the first two phrases, which implies the agent answered |
| Ask.AnsweringMethod | backend/main.py:43-53 | the agent answers exactly when the lower-cased retrieval answer contains one of the five phrases |
| Ask.ErrorAnswer | backend/main.py:56-61 | a quota error wraps the message in the quota text; anything else follows the generic prefix; the message is always recoverable |
| Ask.ErrorAnswerKinds | backend/main.py:56-61 | the quota answer is given exactly for quota errors, and no error answer equals the missing-question answer |
| Ask.HandleAsk | backend/main.py:27-61 | a missing or empty question gets the fixed reply; an exception from either pipeline gets the error answer and no debug record; otherwise the reply is the retrieval answer, or the agent's when the routing test fires, with the retrieval answer and `FinalMethod` in the debug record |
| Ask.NoQuestionNoPipeline | backend/main.py:30-33 | without a question, neither pipeline influences the answer |
| Ask.DebugReportsRetrievalAnswer | backend/main.py:55 | `debug.rag_answer` is always the retrieval answer, and "MCP" is reported only when the agent's answer was returned |
| Ask.CatchAll | backend/agent/rag.py:53-55 | a pipeline's answer passes through, and a failure becomes its marker followed by the error text |
| Ask.RagErrorReturnedVerbatim | backend/agent/rag.py:53-55 | a caught retrieval error without a fallback phrase is returned to the user as the answer |
| Ask.NoExceptionWhenPipelinesCatch | backend/main.py:35-55 | when neither pipeline raises, a debug record is always returned, with the agent's or the retrieval answer as routed |
| Ask.ReportedMethodMisses | backend/main.py:43-55 | for an answer saying "does not contain" the agent answers, yet "RAG" is reported |
| Ask.AnsweringMethodFaithful | backend/main.py:43-55 | the method taken from the routing test always names the pipeline whose answer is returned |

## Left out

- Session statistics: `get_session_stats` and `get_all_sessions_stats` (backend/conversation_manager.py:196 onwards) only report counts. They are not modelled.
- Floating point:
  - `compression_ratio` (backend/services/document_preprocessor.py:49) is not modelled.
  - The logged success rates are not modelled.
  - The clock is whole milliseconds instead of float seconds. Sub-millisecond differences in the expiry and gap tests are therefore not modelled.
- Concurrency: both `ThreadPoolExecutor` maps are modelled as sequential, order-preserving maps. `executor.map` returns results in input order.
- Regular expression engines:
  - The timestamp and reply `re.split` calls are function parameters. The model takes the list they return, with captured separators at odd positions. The reply closed form additionally assumes each captured indicator is non-empty and starts and ends with a non-space character, which is what the pattern captures.
  - The meaningless-word patterns use ASCII lower-casing in place of `re.IGNORECASE`. At 20 or more characters no word pattern can match either way.
- Case conversion: `str.lower` is ASCII-only. This is exact for the header test, the quota test and the fallback phrases, except for non-ASCII characters that Python lower-cases to ASCII, such as the Kelvin sign.
- Prompts: the prompt templates' text, and the analysis prompt of `_create_analysis_prompt`, are not modelled. The analysis response is passed to the segmenter but never read.
- Language model: the language model, the LangChain chains and agents, the embeddings, the vector store, `build_advanced_index`, `query_with_contextual_compression` and component setup are outside the model.
- The chain is built from `gemini_client.llm`, an attribute the client class does not define. In the code as shown, `generate_metadata_with_ai` therefore takes its exception path. The model keeps the response as a parameter, so both outcomes are covered.
- Dead exception paths:
  - `GeminiClient.generate` never raises, and the model's rewrite is a total function. So the exception branch of `_process_conversation_segment` (backend/services/document_preprocessor.py:311-313) is not modelled.
  - Document contents are always strings, so the exception branch of `process_one` (lines 53-55) is not modelled either.
  - For the same reason, the exception branch of `_preprocess_single_document` (lines 111-113) is not modelled.
- Sheets:
  - The Sheets API, the credentials and the network are parameters: whether authentication and the build succeed, what the `get` request returns, whether the append reports its updates.
  - Sheets.AddDocument: does not model the content written to the sheet, because the append request is outside the model; only the returned flag is stated.
- URL tool: the HTTP request, its timeout and `raise_for_status` are one parameter giving the page text or the error text.
- Calculator: `eval` is a parameter giving the text of the value or of the exception.
- Ask:
  - A question that is present but not a string (a number, a list) is not modelled. The question is absent or a string.
  - Only the JSON-level reply is modelled; FastAPI, CORS and the `/health` endpoint are not.
- Configuration: negative `max_sessions` or `max_messages_per_session` values are not modelled, and the counts are natural numbers. A negative `max_sessions` makes the eviction loop index past the sorted list.
- Logging and `print` calls are not modelled.

## Findings

| source | as written | input that shows it | evidently intended | confidence | as-written member | corrected member |
|---|---|---|---|---|---|---|
| backend/conversation_manager.py:185-187 | `context_truncated` compares the number of context lines, which includes the question line, with the number of session messages | a session with messages of 10 and 1 characters, `max_context_length` 20, question `q`: the older message is dropped, the question is added, 2 lines against 2 messages reports not truncated | report truncation exactly when some session message is left out of the history | not executed | Conversation.TruncationFlagMissesDroppedMessage | Conversation.HistoryTruncated |
| backend/main.py:55 | `final_method` tests only "don't know" and "no relevant", while the routing on lines 43-47 tests five phrases | a retrieval answer `does not contain` is routed to the agent but reported as "RAG" | report "MCP" exactly when the agent answered | not executed | Ask.ReportedMethodMisses | Ask.AnsweringMethod |

`HandleAsk` and `GetConversationContext` keep the values as written, since they model the handler and the method. The corrected definitions carry the intended properties: `Ask.AnsweringMethodFaithful` and `Conversation.HistoryTruncated`.
