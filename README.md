# Memory pipeline of the "agent with memory" chat demo

This project models `simulate_memory_pipeline` in `app.py`: one chat turn
of a demo assistant that keeps a session memory store. Each turn does four
things:

1. **Normalise the store.** Legacy bare-string entries become `{"fact": s}` records.
2. **Retrieve.** Every stored fact is scored against the input, in store
   order. The scored facts are then stably sorted by descending score and
   the first three are kept.
3. **Manage memory.** A fixed keyword search classifies the turn:
   - UPDATE overwrites the last fact;
   - NEW appends a fact;
   - NOOP leaves the store alone.

   Exactly one change-log entry is produced.
4. **Synthesise.** The prompt, the token metrics and the reply are built by
   string concatenation.

Modules:

| module | contents |
|---|---|
| `Text` | The Python string operations the turn uses: `k in s`, `s.strip(chars)`, `s.split()` and `sep.join(parts)`, with their reference definitions and lemmas. |
| `Store` | The entry shapes and normalisation. |
| `Retrieval` | Tokens, overlap, scores in integer hundredths, the stable insertion sort, the top three, and the scoring loop as a method. |
| `Classification` | The keyword lists, the decision, the write applied to the store and the change-log entry. |
| `Prompt` | The prompt, the printed scores, the metrics and the reply. |
| `Pipeline` | The session as a class. Its fields are the store and the side panel. `Turn` runs the whole pipeline and is proved against the specification functions of the other modules. |

Values the source takes from the clock and the random source are passed in
as a `Draws` value:

- one score jitter per fact, in hundredths, in [0, 10];
- the measured retrieval time, in tenths of a millisecond;
- the added latency, in tenths of a millisecond, in [200, 800];
- the reply's token count, in [40, 120].

Two behaviours of the code are easy to misread:

- The stored text is the input with 。！？ stripped from *both* ends
  (app.py:59 and app.py:63 call `str.strip`, not `str.rstrip`).
- The overlap intersects the fact's white-space tokens with the *characters*
  of the input (app.py:41-43). Only one-character tokens can ever match, so
  a fact that shares characters but no one-character token with the input
  gets no bonus. For example, "我喜欢猫" against "我喜欢猫吗" scores 0.45
  plus the jitter (`Retrieval.UnbrokenSentenceGetsBaseScore`).

`Pipeline.LegacyCorrection` is a worked example of a whole session. It
starts from a store holding the legacy bare string "我叫小明" and runs one
turn, "其实我叫小华", through `Session.Turn`. The bare entry is wrapped as a
record (app.py:32-35) and then overwritten by the correction (app.py:57-61).
Its assertions check that the store ends as the single record
{"fact": "其实我叫小华"}.

## Model

| member | source | states |
|---|---|---|
| Store.Normalised | app.py:32-35 | Same length and order; every entry becomes a record carrying the text it had; records are left unchanged |
| Store.NormalisedIdempotent | app.py:32-35 | Normalising an already normalised store changes nothing |
| Pipeline.Session.NormaliseStore | app.py:32-35 | The store is replaced by its normalisation; the panel is untouched |
| Pipeline.NormalisedSingle | app.py:32-35 | A store holding the bare string "我叫小明" becomes the one record {"fact": "我叫小明"} |
| Text.SubstringIffOccurs | app.py:54-55 | The recursive `k in s` holds exactly when k occurs in s at some offset (both directions) |
| Text.IsSubstring | app.py:54-55 | Python's `k in s`: the empty string is in every string, and a string found in s is no longer than s |
| Text.SubstringTransitive | app.py:54-55 | A substring of a substring is a substring |
| Classification.NoKeywordMatches | app.py:54-55 | No keyword matches an input that lacks every keyword's first character |
| Classification.Decide | app.py:54-62 | UPDATE exactly when an edit keyword is present and the store is non-empty; NEW exactly when a new-fact keyword is present and the UPDATE condition fails; NOOP otherwise |
| Text.Split | app.py:41 | Every token of `str.split()` is non-empty and free of white space |
| Text.SplitKeepsText | app.py:41 | Concatenated, the tokens are exactly the non-space characters of the string, in order |
| Text.SplitWord | app.py:41 | A non-empty string without white space is a single token |
| Text.TokenCharsInString | app.py:41 | Every character of every token comes from the string |
| Retrieval.OverlapIsSingleCharTokens | app.py:41-43 | A string is in `keywords & input_words` exactly when it is a one-character fact token whose character occurs in the input (both directions) |
| Retrieval.Overlap | app.py:41-43 | The overlap is the number of distinct one-character tokens of the separated fact whose character occurs in the input |
| Retrieval.UnbrokenFactHasNoOverlap | app.py:41-43 | A fact of two or more characters without white space, "，" or "。" has overlap 0 with every input |
| Retrieval.Score | app.py:44 | Every score lies in [0.45, 0.99]; overlap 0 gives at most 0.55; any overlap gives at least 0.60 |
| Retrieval.ScoreMonotone | app.py:44 | More overlap never scores lower under the same jitter |
| Retrieval.ScoreAll | app.py:40-45 | One entry per fact in store order, each carrying its fact and a score in [0.45, 0.99]; a fact with no overlap scores at most 0.55 |
| Retrieval.ScoreFacts | app.py:38-45 | The scoring loop yields one scored entry per fact, in store order, each equal to the fact's score |
| Retrieval.Insert | app.py:46 | Insertion adds exactly the new element: the result is a rearrangement of the sequence with it added |
| Retrieval.SortDesc | app.py:46 | The sort is a permutation of its input and sorted by non-increasing score |
| Retrieval.ConsSorted | app.py:46 | Putting an element that does not score below the head in front of a sorted sequence keeps it sorted |
| Retrieval.InsertSorted | app.py:46 | Inserting into a descending sequence keeps it descending |
| Retrieval.InsertStable | app.py:46 | Insertion puts the element before its equals, as a stable sort of the original order does |
| Retrieval.SortStable | app.py:46 | For every score, sorting keeps the elements with that score in their original order |
| Retrieval.WithScorePrefix | app.py:46 | Cutting to a prefix keeps, for every score, a prefix of the elements with that score |
| Retrieval.Retrieved | app.py:38-46 | Empty for an empty store; otherwise min(3, store size) entries, sorted by non-increasing score; every entry is a stored fact scored in [0.45, 0.99] |
| Retrieval.RetrievalSelects | app.py:38-46 | For every store the result is a sub-multiset of the scored facts; with at most three facts it is all of them |
| Retrieval.RetrievalKeepsBest | app.py:46 | No scored fact that was left out scores above one that was kept |
| Retrieval.RetrievalKeepsStoreOrder | app.py:40-46 | For every score, the kept entries with that score are the first ones, in store order, of the scored facts with that score |
| Retrieval.SingleFactRetrieved | app.py:38-46 | A one-fact store retrieves exactly that fact with its score |
| Retrieval.UnbrokenSentenceGetsBaseScore | app.py:38-46 | A one-fact store holding an unbroken sentence retrieves it at 0.45 plus the jitter, whatever the input |
| Retrieval.Retrieve | app.py:38-46 | The retrieval step as run (loop, stable sort, top three) returns exactly the retrieval result above |
| Text.Strip | app.py:59 | The result is the string from the end of the leading run of stripped characters, with everything cut off on either side a stripped character and neither end a stripped character |
| Text.StripKeeps | app.py:59 | A string whose ends are not stripped characters is left as it is |
| Text.StripIdempotent | app.py:59 | Stripping twice is stripping once |
| Text.StripSurrounded | app.py:59 | Strip removes exactly the runs of stripped characters around a text whose ends are not stripped |
| Classification.NewFact | app.py:59 | The stored text is the input with 。！？ runs removed from both ends, and its ends are none of 。！？ |
| Classification.MarksStrippedFromBothEnds | app.py:63 | Any 。！？ run before and after a text is dropped, and nothing else |
| Classification.Apply | app.py:57-67 | UPDATE keeps the length and rewrites only the last fact; NEW appends exactly one record after the unchanged store; NOOP leaves the store unchanged; in every case the store stays all records and earlier facts stay |
| Classification.Written | app.py:57-67 | The turn's write keeps the store all records, grows it by at most one entry and keeps every fact but the last |
| Classification.Logged | app.py:57-67 | Exactly one log entry, whose kind is the decision: old and new text for UPDATE, the stored text for NEW, the fixed message for NOOP |
| Classification.EmptyInputIsNoop | app.py:54-67 | The empty input is a NOOP and leaves any store unchanged |
| Classification.EditOnEmptyStore | app.py:57-67 | An edit keyword on an empty store gives NEW when a new-fact keyword is also present, and NOOP otherwise |
| Classification.NoopTwice | app.py:57-67 | Repeating a NOOP turn leaves the store and the log entry as they were |
| Classification.UpdateTwice | app.py:57-67 | Repeating an UPDATE turn leaves the store as the first one left it |
| Classification.GreetingIsNoop | app.py:54-67 | "你好" on an empty store writes nothing and logs the NOOP message |
| Classification.NameIsNewFact | app.py:54-65 | "我叫小明" on an empty store appends that fact and logs it as NEW |
| Classification.CorrectionUpdatesLastFact | app.py:54-61 | "其实我叫小华" on the store ["我叫小明"] overwrites the fact and logs the old and the new text |
| Pipeline.Session.Classify | app.py:57-67 | The method's write and log entry are exactly `Written` and `Logged` of the old store; the panel is untouched |
| Prompt.ScoreText | app.py:73 | A score prints as "0." and one or two digits, with no trailing zero |
| Prompt.ScoreTextRoundTrip | app.py:73 | The printed score reads back as the score, so distinct scores print differently |
| Text.JoinContainsParts | app.py:73 | Every part is a substring of the joined text |
| Text.Join | app.py:95 | `sep.join(parts)`: empty for no parts; otherwise it starts with the first part and its length is the parts' total length plus one separator between each two parts |
| Prompt.BuildPrompt | app.py:71-79 | The prompt opens with "[RETRIEVED MEMORIES]" exactly when something was retrieved, and always ends with the user block and the instruction |
| Prompt.UserBlockReadsBack | app.py:77-78 | The user block is the header, the input verbatim, then the instruction |
| Prompt.PromptHoldsRetrievedFacts | app.py:71-79 | Every retrieved fact appears in the prompt |
| Prompt.PromptTokens | app.py:83 | The prompt token count is the prompt length times 1.5, rounded down |
| Prompt.MakeMetrics | app.py:83-90 | The retrieval time is the measured time plus 20-80 ms; reply tokens are in [40, 120]; the total is prompt plus reply tokens |
| Prompt.HintFacts | app.py:95 | The hint lists the facts of the first min(2, n) retrieved entries, in order, and no others; `Prompt.Reply` joins exactly this list with "、" |
| Prompt.Reply | app.py:94-97 | With something retrieved, the reply is "（已检索到相关记忆：", the hint facts joined by "、", "）" and a blank line, the quoted input and the fixed closing; with nothing retrieved, it is the quoted input and the fixed "no related memory" closing. The recall opening appears exactly when something was retrieved, and the quoted input always appears |
| Prompt.ReplyNamesTopTwo | app.py:94-96 | Each of the first two retrieved facts appears in the reply |
| Pipeline.Session.constructor | app.py:14-23 | A new session holds the given store and an empty panel |
| Pipeline.Session.Turn | app.py:26-97 | Retrieval sees the normalised store before the write; the store then changes only by that write; the panel holds the retrieval result, exactly one log entry, the prompt built from that result and its metrics; the reply is built from the same retrieval result |
| Pipeline.TurnKeepsEarlierFacts | app.py:32-67 | After a turn the store is all records, has grown by at most one entry, and every entry but the last carries the text it had, legacy or not |

## Left out

- Streamlit page setup, the session bootstrap beyond the store and panel, the sidebar, the header toggle, the injected CSS and JavaScript, and all rendering (app.py outside lines 14-23 and 26-97): these are user-interface code with no logic that the turn depends on.
- Wall-clock time: the measured retrieval time is a parameter (`Draws.elapsed`), not a measurement.
- Randomness: the three random draws are parameters with the ranges the source's calls produce.
- Retrieval.Score: scores are exact integer hundredths, `min(99, 45 + 15 * overlap + jitter)`. The source's IEEE float arithmetic and `round(..., 2)` are not modelled, so the edge cases of binary rounding are not captured.
- Prompt.MakeMetrics: the retrieval time is kept in exact tenths of a millisecond. The float sum and its `round(..., 1)` are not modelled.
- Text.Split: the contract states the tokens' content (non-empty, no white space, together all non-space characters in order) but not that each token is a maximal run. The function itself computes maximal runs.
- Store entries that are dictionaries without a "fact" key, or bare values that are not strings: the source raises or misbehaves on them, and they are not modelled.
- Aliasing: the store's records are Python dictionaries mutated in place (app.py:60). They are modelled as values, which is faithful here because no other reference to them is kept during a turn.
- Concurrency between Streamlit reruns is not modelled; one turn runs at a time.
