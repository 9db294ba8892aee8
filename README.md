# Clario legal assistant: a verified model of its text-processing core

Clario is a Streamlit application (`app.py`) that helps a reader with
employment and tenancy texts. The model covers five pieces of its
deterministic core:

- the sentence chunker `chunk_text`;
- the ordered terminology table `REPLACEMENTS` and the normalizer
  `apply_fallback_replacements`, which rewrites legal phrases into plain ones;
- the keyword red-flag detector `detect_red_flags`;
- the hybrid clause summarizer `legal_summary`;
- the `KNOWLEDGE_BASE` and the hybrid chatbot `legal_chatbot`.

The local Flan-T5 model, the extractive (LSA) summarizer and the sentence
splitter are outside the model. They enter it as values:

- the pipeline is either `Unavailable` or `Loaded(run)`. Here `run` maps a
  prompt to `Raised` or to `Generated(text)`;
- the extractive summarizer is a function of a chunk and a sentence count;
- the sentence split of the text is the list of sentences.

Every property below therefore holds whatever the model, the summarizer and
the splitter return.

Modules follow the program's structure:

- `Text`: the Python string operations the core relies on. These are
  `str.lower` (ASCII letters), `str.strip` (the `str.isspace` set), `in`,
  `str.join`, `str.split` and `str.replace`. Each is written out with its
  laws, such as replace being join-of-split and split/join round trips.
- `Chunking`: `chunk_text`, as a loop proved against the `Groups`
  specification.
- `Terminology`: the 50-entry table and the left fold of replace-all over it.
  The method `ApplyFallbackReplacements` is the source's loop.
- `RedFlags`: the three rules and `DetectRedFlags`. The method is proved
  equal to `Report(Flags(Rules, Lower(text)))`, whose properties are lemmas.
- `Flan`, `Wrappers`: the model abstraction and an `Option` type.
- `Summarizer`: `LegalSummary`, from chunking through the optional rewrite
  to normalization.
- `Chatbot`: the knowledge base, `FirstMatch` and `LegalChatbot`, whose
  loop returns at the first key found.

## Behaviour that follows from the code

Four consequences of the code are easy to miss when reading it. The model
follows the code in each of them:

- **The repeated table key.** The dict display lists "from time to time"
  twice: "occasionally" at app.py:98 and "sometimes" at app.py:113. Python
  keeps the first *position* and the last *value*, so the table has 50
  entries, and entry 22 maps the phrase to "sometimes". The value
  "occasionally" can therefore never be produced.
  (`RepeatedKeyCollapsed`, `RepeatedKeyUsesLastValue`)
- **"at any time without cause".** The table has an entry for this phrase
  at app.py:123, with the value "anytime without reason". The entry for
  "at any time" (app.py:99) comes earlier in the table and runs first, so
  the text becomes "whenever without cause" and the app.py:123 entry no
  longer matches it. (`AtAnyTimeComesFirst`)
- **"fired anytime".** The termination rule (app.py:53) looks for
  "terminate" or "fire anytime". "fire anytime" is not a substring of
  "fired anytime", so "The employee may be fired anytime without pay."
  raises only the salary flag. (`FiredAnytimeOnlySalaryFlag`)
- **Tenant questions in everyday words.** The input field suggests the
  question "Explain my rights as tenant" (app.py:223), and the knowledge
  base's first key is "tenant rights" (app.py:164). Neither that question
  nor "What are my rights as a tenant?" contains the key, so both go to the
  model, or get the no-model message when there is none. The model proves
  this for the second question. (`TenantQuestionMissesKey`)

## Model

| member | source | states |
|---|---|---|
| Chunking.ChunkText | app.py:64-70 | a step of 0 is the `ValueError` of `range`; a negative step gives no chunks; a positive step gives the space-joined runs `Groups(sentences, m)` |
| Chunking.ChunkTextShape | app.py:67-69 | ceil(n/m) chunks; chunk j joins `sentences[j*m : j*m+m]`, cut at n; the runs put back together are the sentence list; no sentences give no chunks |
| Chunking.GroupsCount | app.py:67 | the number of runs is ceil(n/m) |
| Chunking.GroupsFlatten | app.py:67-68 | concatenating the runs gives back the sentences, in order, none lost or repeated |
| Chunking.GroupsSizes | app.py:67-68 | each run has 1 to m sentences, and all but the last have exactly m |
| Chunking.GroupIsSlice | app.py:68 | run j is the slice the loop takes on iteration j |
| Chunking.ChunksAreSlices | app.py:67-69 | every chunk is the space-join of its slice |
| Terminology.ApplyFallbackReplacements | app.py:129-132 | the loop's result is `Normalize(text)`, the left fold of replace-all over the table in iteration order |
| Terminology.SkipEntry | app.py:131 | an entry whose key does not occur leaves the text unchanged |
| Terminology.ApplyFromUntouched | app.py:130-131 | when none of the remaining keys occurs, the rest of the table changes nothing |
| Terminology.NormalizeNoKey | app.py:129-132 | a text containing no table key comes out unchanged |
| Terminology.NormalizeIdempotent | app.py:129-132 | once the output holds no key, normalizing it again changes nothing |
| Terminology.ApplyFromSplit | app.py:130-131 | applying a table in two parts is applying the first part, then the second to the result |
| Terminology.NormalizeByParts | app.py:75-127 | the normalizer is the five runs of table lines applied one after another |
| Terminology.ApplyFromRange | app.py:130-131 | entries whose keys do not occur can be skipped as a block |
| Terminology.ReplaceOnce | app.py:131 | a key occurring once, after a front without its first character, is replaced by its value in place |
| Terminology.ReplaceInRun | app.py:130-131 | if only one entry's key occurs, and its value brings in no later key, the fold swaps in that value and changes nothing else |
| Terminology.RepeatedKeyCollapsed | app.py:98-113 | entry 22 is ("from time to time", "sometimes"), and no other entry has that key |
| Terminology.RepeatedKeyUsesLastValue | app.py:98-113 | "work from time to time" normalizes to "work sometimes", the value of the later line |
| Terminology.AtAnyTimeComesFirst | app.py:99-123 | "at any time without cause" normalizes to "whenever without cause", because the shorter key runs first |
| Terminology.ReportingChain | app.py:80-104 | one pass chains entries: "reporting to designated managers" becomes "update managers" via line 80, then line 104 |
| Text.ReplaceIsJoinOfSplit | app.py:131 | `s.replace(k, v)` equals `v.join(s.split(k))` for a non-empty key |
| Text.ReplaceAbsent | app.py:131 | replacing a key that does not occur changes nothing |
| Text.ReplaceBySelf | app.py:131 | replacing a key by itself changes nothing |
| Text.SplitJoin | app.py:59 | joining the pieces of a split, with the same separator, gives the text back |
| Text.JoinSplit | app.py:59 | splitting a join on a one-character separator that no part holds gives back the parts |
| Text.ContainsIff | app.py:53-58 | `t in s` holds exactly when t occurs at some index of s |
| Text.LowerIsLower | app.py:52 | lowering leaves no ASCII capital, and lowering twice is lowering once |
| Text.ContainsLower | app.py:52 | lowering keeps an occurrence: if u occurs in s, the lowering of u occurs in the lowering of s |
| Text.ContainsLowerPattern | app.py:52 | a lower-case phrase found in a text is also found in the text's lowering |
| Text.ContainsLowerIff | app.py:52-58 | p occurs in the lowered text exactly when some slice of the text lowers to p: matching on the lowering is case-insensitive matching |
| Text.Strip | app.py:149 | the result is empty exactly when the text is all whitespace; otherwise it neither starts nor ends with whitespace and is the slice left after cutting whitespace at both ends |
| RedFlags.DetectRedFlags | app.py:50-59 | the report is `Report(Flags(Rules, Lower(text)))`: the three checks in order, each on the lowered text |
| RedFlags.UnfoldRules | app.py:53-58 | the flags are the termination, salary and confidentiality messages, in that order, each present exactly when its rule fires |
| RedFlags.FlagsMembership | app.py:53-58 | a message is reported exactly when some rule carrying it fires |
| RedFlags.FlagsInOrder | app.py:53-58 | the reported messages are a subsequence of the rule messages, in rule order |
| RedFlags.FlagsOfRules | app.py:53-58 | no message is reported twice; only rule messages are reported; message i appears exactly when rule i fires |
| RedFlags.NoFlagsIff | app.py:59 | the all-clear message is reported exactly when no rule fires |
| RedFlags.ReportLines | app.py:59 | when some rule fires, splitting the report at line breaks gives back the flags: one message per line |
| RedFlags.MessagesDistinct | app.py:54-58 | the three warning messages are pairwise distinct |
| RedFlags.PhraseInAnyCaseFires | app.py:52-58 | a slice of the text that lowers to one of a rule's phrases, whatever its letter case, raises the rule's flag |
| RedFlags.FiresIffPhraseInAnyCase | app.py:52-58 | a rule fires exactly when some slice of the text, in any ASCII letter case, lowers to one of its phrases |
| RedFlags.PhraseAsWrittenFires | app.py:53-57 | a phrase found exactly as the rule spells it raises the flag, the phrases being lower case |
| RedFlags.CapitalTerminateFires | app.py:52-54 | "TERMINATE" in capitals raises the termination flag |
| RedFlags.FiredAnytimeOnlySalaryFlag | app.py:53-56 | "The employee may be fired anytime without pay." yields exactly the salary message |
| RedFlags.StandardHoursNoFlags | app.py:53-59 | "Standard working hours apply." yields the all-clear message |
| Summarizer.LegalSummary | app.py:137-158 | `used_model` is set exactly when the model rewrite is accepted; the summary is the normalized rewrite, or else the normalized combined summary; with no pipeline, `used_model` is false |
| Summarizer.CombinedSummaryParts | app.py:138-140 | the combined summary is the space-join of ceil(n/5) extracts, one per chunk in chunk order, extract j being the two-sentence extract of sentences 5j up to 5j+5 |
| Summarizer.RewriteDiffers | app.py:149-151 | an accepted rewrite is non-empty, has no surrounding whitespace, and differs from the combined summary even ignoring case |
| Summarizer.EchoIsRejected | app.py:150 | output that repeats the combined summary, up to case and surrounding whitespace, is not used |
| Summarizer.FailedModelIsIgnored | app.py:146-154 | a raising model or all-whitespace output leaves the combined summary in place |
| Chatbot.LegalChatbot | app.py:178-193 | the answer is `Answer(query, pipeline)`: the first matching knowledge-base entry, or else the model's answer or a fallback message |
| Chatbot.FirstMatchFrom | app.py:180-182 | the index found is the first at or after i whose key occurs in the lowered query; if none is found, no key from i on occurs |
| Chatbot.FirstMatch | app.py:180-182 | the index found is the first whose key occurs; if none is found, no key occurs |
| Chatbot.FirstMatchIs | app.py:180-182 | entry i is the match exactly when its key occurs and no earlier key does |
| Chatbot.KnowledgeBaseFirst | app.py:178-182 | a query containing key i, in any case, and no earlier key, gets answer i whatever the model state |
| Chatbot.ModelOnlyWithoutMatch | app.py:180-183 | the model is reached only when no key occurs in the query |
| Chatbot.NoKeyMeansModel | app.py:163-183 | a query holding none of the four keys gets the model's answer |
| Chatbot.ModelAnswerKinds | app.py:183-193 | without a match, the answer is one of the three fallback messages, or a stripped non-empty model answer that is not the query again up to case; with no pipeline it is the no-model message |
| Chatbot.NoMatchReplies | app.py:183-193 | with no key in the query: no pipeline gives the no-model message, a raised error gives the failure message, a blank answer or one equal to the query up to case gives the not-confident message, and any other answer is returned stripped |
| Chatbot.FallbacksDistinct | app.py:189-193 | the three fallback messages are pairwise distinct |
| Chatbot.KnowledgeBaseAnswersNonEmpty | app.py:163-176 | every canned answer is non-empty |
| Chatbot.AnswerNonEmpty | app.py:178-193 | the chatbot always answers with a non-empty text |
| Chatbot.TenantQuestionMissesKey | app.py:164-193 | "What are my rights as a tenant?" matches no key; it gets the model's answer, or the no-model message when there is none |
| Chatbot.FirstKeyInTableOrderWins | app.py:173-182 | "Is salary withheld on termination?" contains both "termination" and "salary" and gets the termination answer, the earlier key, whatever the model |

## Left out

- The Streamlit user interface (tabs, text areas, buttons, sidebar messages, `st.cache_resource`) is not modelled. It only displays the core's results.
- `nltk.sent_tokenize` and the punkt download are not modelled: the sentence list is an input of `ChunkText` and `LegalSummary`.
- `extractive_summary` (sumy's LSA summarizer) is an opaque function parameter. Its default of 3 sentences is unused by the core; the call site passes 2, which is the model's `SentencesPerChunk`.
- The internals of Flan-T5 are not modelled, nor its loading, tokenizer or `max_new_tokens` and `do_sample` settings. A loaded pipeline is an arbitrary function from prompt to outcome, and any exception from the call or from reading the response is the outcome `Raised`.
- `Text.Lower`: does not model Unicode case mapping. Only ASCII capitals are lowered, while Python's `str.lower` maps every cased character. All keys and phrases of the core are ASCII.
- `REPLACEMENTS` is modelled as the table Python builds from the dict display, not as the display itself. The duplicate key is merged as Python merges it.
- Terminology.AtAnyTimeComesFirst: proves that the app.py:123 entry does not fire on "at any time without cause" itself and on that phrase inside any text lacking the letters the proof uses, not that it can never fire on any input. A proof for all inputs needs more than the fact that no "at any time" is left after the app.py:99 entry. That fact is not kept by the later entries, because the value at app.py:107 starts with the letter "at any time" ends with.
- The example lemmas on concrete texts (the `...Context...`, `...Part...`, `...Lowered` and `...No...` helpers) prove character-level facts about short literals. Their only job is to carry the examples.
- `1webpage.py`, `local_test.py` and `hf_test.py` are not part of this model: they are a separate web page and manual test scripts.
