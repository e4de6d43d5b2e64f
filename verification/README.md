# kumou dialogue reader: a verified Dafny model of its core

kumou is a Japanese reading aid. It serves a corpus of everyday dialogues by
topic, one page at a time, with an optional text search. It splits a sentence
into morphemes with an IPADIC analyser and shows each token with its
part-of-speech label and colour class. It reads the sentence aloud with the
browser's speech synthesiser and highlights the token being spoken.

This project models the logic behind those features and proves what it
promises:

- `Escape` covers the escaping of a sentence into a single-quoted JavaScript
  string literal. This is the `replace` chain in `speak_japanese`, which is
  repeated in `speak_with_tracking`.
- `Alignment` covers `build_char_offset_ranges`. It places each token surface
  in the sentence at a code-point offset, with a forward search from a cursor
  and a contiguous fallback.
- `Tracker` covers `char_index_to_token` and one step of the polling loop. The
  step turns a speech-boundary value into the highlighted token. It is a class
  whose state is `speaking_token_idx`.
- `Dialogues` covers the corpus records and `topic_name_ja`.
- `ServerFns` covers the corpus load, `get_topics`, `get_dialogues_by_topic`
  and `get_dialogue`.
- `Tokenizer` covers how `analyze_sentence` turns each analyser token into the
  nine named fields, plus the tables `pos_css_class` and `pos_english`.

A few conventions run through the model:

- Strings are sequences of code points, as Rust's `chars()` sees them.
- `u32` and `usize` values are natural numbers.
- Loops in the source are methods with loop invariants. Each method is
  either proved equal to a specification function, with the lemmas stated
  about that function, or has its result characterised directly in its
  ensures.

## Model

| member | source | states |
|---|---|---|
| Escape.Replace | apps/dialogue/src/components/speak_button.rs:7-10 | `str::replace` of one character: an input without that character comes back unchanged, a replacement without it leaves none behind, and every output character comes from the input or the replacement. |
| Escape.EscapeJs | apps/dialogue/src/components/speak_button.rs:7-10 | The chain itself: no newline survives it, and every output character is an input character or one of `\`, `'` and `n`. `EscapeJsIsSinglePass` gives the whole result. |
| Escape.EscapeChar | apps/dialogue/src/components/speak_button.rs:7-10 | A character becomes two characters exactly when it is a backslash, a single quote or a newline. In that case the first is a backslash. No escape contains a newline. |
| Escape.EscapeJsIsSinglePass | apps/dialogue/src/components/speak_button.rs:7-10 | The three chained replacements, backslash first, equal one left-to-right substitution per character. Backslashes added for quotes and newlines are not doubled, and every other character is kept. |
| Escape.EscapeJsSplits | apps/dialogue/src/components/speak_button.rs:7-10 | The escape of a text is the escape of its parts around any character, with that character replaced by its own escape (`\` to `\\`, `'` to `\'`, newline to `\n`). |
| Escape.EscapeJsShape | apps/dialogue/src/components/sentence_analysis.rs:10-13 | The escaped text contains no newline. Its length is the input length plus the number of backslashes, quotes and newlines in the input. |
| Escape.EscapeJsRoundTrip | apps/dialogue/src/components/sentence_analysis.rs:10-13 | Reading the escaped literal back with `Unescape`, where `\x` means `x` and `\n` means newline, gives the original text. A JavaScript reader differs: an input carriage return passes through unescaped and ends the real literal. |
| Alignment.FirstMatch | apps/dialogue/src/components/sentence_analysis.rs:75-81 | The first offset at or after the cursor where the surface occurs in the sentence; none when it occurs nowhere from the cursor on. |
| Alignment.SearchFrom | apps/dialogue/src/components/sentence_analysis.rs:74-82 | The inner `for start in pos..=…` loop with its `break` finds exactly `FirstMatch`. The loop is searched over the corrected start range. |
| Alignment.ScanStarts | apps/dialogue/src/components/sentence_analysis.rs:75 | The candidate starts run upward from the cursor. Each keeps the slice `start..start+surf_len` inside the sentence, and no in-bounds start is left out. The range equals the source's range except when the cursor is 0 and the surface is longer than the sentence. |
| Alignment.ScanStartsAsWritten | apps/dialogue/src/components/sentence_analysis.rs:75 | The starts the source's range `pos..=len.saturating_sub(surf_len)` visits: consecutive offsets upward from the cursor. |
| Alignment.ScanStartsAsWrittenOutOfBounds | apps/dialogue/src/components/sentence_analysis.rs:75-76 | The range as written contains a start whose slice runs past the sentence end exactly when the cursor is 0 and the surface is longer than the sentence. |
| Alignment.ScanStartsAsWrittenCounterexample | apps/dialogue/src/components/sentence_analysis.rs:75-76 | For sentence "a" and surface "ab", the range as written is `0..=0`, and the slice `0..2` lies beyond the one-character sentence. |
| Alignment.PlaceToken | apps/dialogue/src/components/sentence_analysis.rs:74-87 | A token's range carries its index and has the surface's length. It starts at the first occurrence at or after the cursor when there is one. Otherwise it starts at the cursor. |
| Alignment.Align | apps/dialogue/src/components/sentence_analysis.rs:66-90 | One range per surface, in input order; range `i` carries index `i` and spans exactly as many code points as surface `i`. |
| Alignment.BuildCharOffsetRanges | apps/dialogue/src/components/sentence_analysis.rs:66-90 | The cursor loop that pushes one range per surface, found or fallback, computes exactly `Align`. |
| Alignment.AlignedRange | apps/dialogue/src/components/sentence_analysis.rs:75-86 | Range `i` starts at or after the previous range's end, which is the cursor. When the surface occurs from the cursor on, the range slices the sentence in bounds, equals the surface and starts at the smallest such offset. Otherwise it starts at the cursor, even when the cursor is past the sentence end. |
| Alignment.AlignOrdered | apps/dialogue/src/components/sentence_analysis.rs:69-86 | The ranges are monotone and pairwise non-overlapping: every earlier range ends at or before every later range starts. |
| Alignment.AlignTilesPrefix | apps/dialogue/src/components/sentence_analysis.rs:66-90 | When the surfaces concatenate to a prefix of the sentence, every surface is found where the concatenation puts it, and the ranges lie end to end from 0. |
| Alignment.AlignTiles | apps/dialogue/src/components/sentence_analysis.rs:66-90 | When the surfaces concatenate to the sentence, the ranges tile `[0, len)` contiguously and each slices out its own surface. |
| Alignment.AlignExample | apps/dialogue/src/components/sentence_analysis.rs:66-90 | 今日 / は / 晴れ over 今日は晴れ gives (0,2,0), (2,3,1), (3,5,2). |
| Tracker.FirstCovering | apps/dialogue/src/components/sentence_analysis.rs:51-55 | The first range whose half-open span contains the index; none when no range contains it. |
| Tracker.TokenAt | apps/dialogue/src/components/sentence_analysis.rs:50-63 | A token is found exactly when some range contains the index or the index is at or past the last range's start, and it is always the token of one of the ranges. `TokenAtRules` gives the order of the rules. |
| Tracker.CharIndexToToken | apps/dialogue/src/components/sentence_analysis.rs:50-63 | The scan with early return, then the last-range check, computes exactly `TokenAt`. |
| Tracker.TokenAtRules | apps/dialogue/src/components/sentence_analysis.rs:50-63 | The rules in order: the first containing range gives its token. Failing that, an index at or past the last range's start gives the last token. Otherwise, including with no ranges, there is no token. |
| Tracker.OrderedCoverUnique | apps/dialogue/src/components/sentence_analysis.rs:50-55 | On ordered ranges at most one range contains an index, and the lookup returns that range's token. |
| Tracker.TokenAtInRange | apps/dialogue/src/components/sentence_analysis.rs:50-63 | When ranges carry their positions, a returned token is an existing position. An index at or past the last start always gives a token. |
| Tracker.TilesHighlight | apps/dialogue/src/components/sentence_analysis.rs:50-63 | Over ranges that tile `[0, len)`, every index gives a token. Inside, it is the token whose range holds the index; past the end, it is the last token. |
| Tracker.TiledAlwaysHighlights | apps/dialogue/src/components/sentence_analysis.rs:50-90 | When the surfaces concatenate to the sentence, every boundary index highlights a token. An index inside the sentence highlights the token whose range holds it, and any later index highlights the last token. |
| Tracker.TokenAtExamples | apps/dialogue/src/components/sentence_analysis.rs:50-63 | Concrete lookups: inside the first range, past the end, in a gap between ranges, and over no ranges. |
| Tracker.AsI64 | apps/dialogue/src/components/sentence_analysis.rs:143 | A value yields an integer exactly when it is a JSON integer within the signed 64-bit range. |
| Tracker.BoundaryOf | apps/dialogue/src/components/sentence_analysis.rs:142-143 | A poll delivers a boundary exactly when the evaluation succeeded and returned an integer in the signed 64-bit range, and the boundary is that integer. |
| Tracker.SurfacesOf | apps/dialogue/src/components/sentence_analysis.rs:107 | The surfaces of the analysed tokens, one per token, in order. |
| Tracker.Highlighter.constructor | apps/dialogue/src/components/sentence_analysis.rs:99-109 | Built from an analysis result: the ranges align its tokens' surfaces onto its text, and nothing is highlighted at first. |
| Tracker.Highlighter.Poll | apps/dialogue/src/components/sentence_analysis.rs:142-150 | A negative boundary clears the highlight. A non-negative boundary highlights `TokenAt` of it. A failed evaluation, a null or a non-integer leaves the highlight as it was. The highlighted token, if any, always exists. |
| Dialogues.TopicNameJa | crates/kumou-japanese/src/dialogue.rs:45-54 | The five English topic names map to 日常生活, 学校, 旅行, 健康 and エンターテインメント, and any other name maps to itself. No result is one of the five English names. |
| Dialogues.TopicNameJaIdempotent | crates/kumou-japanese/src/dialogue.rs:45-54 | Translating twice is translating once. |
| ServerFns.Flatten | apps/dialogue/src/server_fns.rs:10-18 | A dialogue is in the flattened corpus exactly when some successfully parsed file holds it. |
| ServerFns.LoadAllDialogues | apps/dialogue/src/server_fns.rs:10-18 | The load succeeds exactly when every file parsed. It then yields the dialogues of all files in file order. Otherwise it returns the error of the first file that failed. |
| ServerFns.CountTopic | apps/dialogue/src/server_fns.rs:25-34 | The number of dialogues of a topic is at most the corpus size, and it is zero exactly when no dialogue has that topic. |
| ServerFns.FindTopic | apps/dialogue/src/server_fns.rs:26 | `iter_mut().find` gives the first summary with the topic id, or none when there is no such summary. |
| ServerFns.SortById | apps/dialogue/src/server_fns.rs:36 | Sorting by topic id keeps the same summaries (a permutation) and the same total count. |
| ServerFns.SortByIdSorted | apps/dialogue/src/server_fns.rs:36 | Summaries with distinct ids come out strictly ascending by id. |
| ServerFns.GetTopics | apps/dialogue/src/server_fns.rs:20-38 | There is exactly one summary per distinct topic id, strictly ascending by id. Each summary's count is the number of that topic's dialogues, and its name is the name on the topic's first dialogue. The counts sum to the number of dialogues. |
| ServerFns.EffectivePerPage | apps/dialogue/src/server_fns.rs:49 | The page size is 20 when 0 is requested and `min(per_page, 100)` otherwise, so it always lies in 1..100. |
| ServerFns.FilterDialogues | apps/dialogue/src/server_fns.rs:51-63 | The filter keeps exactly the dialogues of the topic that, for a non-empty search, have an utterance containing the search text. It never yields more than the corpus. |
| ServerFns.FilterDialoguesAppend | apps/dialogue/src/server_fns.rs:51-63 | The filter keeps corpus order: filtering a concatenation concatenates the filtered parts. |
| ServerFns.TotalPages | apps/dialogue/src/server_fns.rs:66 | `(total + per_page - 1) / per_page` is the ceiling of `total / per_page`, and it is 0 exactly when `total` is 0. |
| ServerFns.ClampPage | apps/dialogue/src/server_fns.rs:67 | The requested page when that page exists, the last page otherwise, and 0 when there are no pages; never more than the request. |
| ServerFns.ClampPageBounds | apps/dialogue/src/server_fns.rs:65-69 | The first item of the clamped page lies within the selection, and strictly inside it when the selection is non-empty. |
| ServerFns.Skip | apps/dialogue/src/server_fns.rs:72 | `skip(n)` keeps the elements after the first `n`, in order, and none when `n` exceeds the length. |
| ServerFns.Take | apps/dialogue/src/server_fns.rs:73 | `take(n)` keeps the first `n` elements, in order, or all of them when there are fewer. |
| ServerFns.TakeSkipSlice | apps/dialogue/src/server_fns.rs:70-74 | `skip(start).take(n)` is the slice from `start` up to `min(start + n, len)`. |
| ServerFns.GetDialoguesByTopic | apps/dialogue/src/server_fns.rs:40-83 | The returned page has: `per_page` in 1..100; `total` equal to the number of selected dialogues; `total_pages` equal to its ceiling over `per_page`; `page` clamped to the last page, and 0 when nothing matches. Its dialogues are exactly the slice `page*per_page .. min(total, page*per_page + per_page)` of the selection, so there are at most `per_page` of them. |
| ServerFns.GetDialoguesByTopicSelected | apps/dialogue/src/server_fns.rs:51-74 | Every returned dialogue comes from the corpus and has the requested topic. For a non-empty search, some utterance of it contains the search text. |
| ServerFns.GetDialoguesByTopicCovers | apps/dialogue/src/server_fns.rs:65-74 | The pages partition the selection: the `j`-th selected dialogue is on page `j / per_page`, at position `j % per_page`. |
| ServerFns.GetDialogue | apps/dialogue/src/server_fns.rs:85-93 | The first dialogue with the id. The result is the error "Dialogue not found" exactly when no dialogue has that id. |
| Tokenizer.Detail | crates/kumou-japanese/src/tokenizer.rs:80-85 | The `get` closure: detail `i` when there is one; every result is a detail of the token or `*`. |
| Tokenizer.ToAnalyzedToken | crates/kumou-japanese/src/tokenizer.rs:80-100 | The surface is copied. Field `k` (major, sub1, sub2, sub3, conjugation type, conjugation form, base form, reading, pronunciation) is detail `k` when there is one, and `*` otherwise. |
| Tokenizer.ToAnalyzedTokenFields | crates/kumou-japanese/src/tokenizer.rs:76-99 | The nine fields are the first nine details, padded with `*`. Nine details come back unchanged, details past the ninth are dropped, and no details give all `*`. |
| Tokenizer.ToAnalyzedTokenRoundTrip | crates/kumou-japanese/src/tokenizer.rs:80-100 | Shaping loses nothing: a token rebuilt from its own surface and nine fields is the same token. |
| Tokenizer.AnalyzeSentence | crates/kumou-japanese/src/tokenizer.rs:59-107 | An analyser failure yields a `Tokenization` error carrying its message and no partial result. Otherwise the text is returned unchanged, with one shaped token per analyser token, in order. |
| Tokenizer.PosCssClass | crates/kumou-japanese/src/tokenizer.rs:110-124 | The ten listed major categories map to their colour classes, and every other string maps to `pos-other`. |
| Tokenizer.PosEnglish | crates/kumou-japanese/src/tokenizer.rs:127-143 | The twelve listed major categories map to their English labels, and every other string maps to `Other`. |
| Tokenizer.PosCssClassRoundTrip | crates/kumou-japanese/src/tokenizer.rs:110-124 | The class of a listed category is never `pos-other` and identifies the category, so distinct categories get distinct classes. |
| Tokenizer.PosEnglishRoundTrip | crates/kumou-japanese/src/tokenizer.rs:127-143 | The label of a listed category is never `Other` and identifies the category. |
| Tokenizer.CssClassesWithinLabels | crates/kumou-japanese/src/tokenizer.rs:110-143 | Every category with a colour class has an English label. The labelled categories without a class are exactly 形容動詞 and フィラー. |

## Left out

- The JavaScript run through `document::eval` is not modelled. It covers speech synthesis, the boundary, end and error handlers, and the page globals. The model starts from the value the poll reads back: an integer, null or another value, or a failed evaluation.
- The spawned polling loop, its 50 ms sleep and the component's effect and signal plumbing are not modelled; they are asynchronous scaffolding. `Highlighter.Poll` models one pass of the loop.
- The code does not clear the highlight when a new utterance starts. Only a boundary value changes it, and -1 comes from the end and error handlers. The model follows the code.
- Rendering and routing (`rsx!` markup, views, `main.rs`) are not modelled.
- The lindera analyser and its dictionary are left out because they are foreign code. `create_tokenizer` and `tokenize` become a function parameter of `AnalyzeSentence`, whose result is either raw tokens or an error message.
- The JSON parsing of the embedded data files is left out. `LoadAllDialogues` takes one parse result per file.
- The query functions `GetTopics`, `GetDialoguesByTopic` and `GetDialogue` take the loaded corpus. When the load fails, the source returns that error unchanged before any query logic runs.
- The `analyze_sentence` server function is left out. It is a pass-through to the crate function, with an error when the tokenizer feature is off.
- `Tracker.Highlighter.Poll`: does not model the `char_idx as usize` cast, which truncates values above 2^32 - 1 on a 32-bit target.
- Widths are left out. `u32` ids and `usize` counts are unbounded naturals, so `total + per_page - 1` cannot overflow in the model.
- `Escape.EscapeJsShape`: covers only the three escaped characters. Carriage returns and the other JavaScript line terminators pass through unescaped, exactly as in the source.
- `ServerFns.FilterDialogues`: the search is a code-point substring test. Rust's `str::contains` compares UTF-8 bytes, and both tests accept the same strings.
- `ServerFns.SortById`: the library's stable sort is an insertion sort here. Summary ids are distinct, so stability cannot be observed.
- `Tokenizer.AnalyzeSentence`: the `Display` text of the error (`Tokenization failed: …`) is not modelled, only the variant and its message.

## Findings

| source | as written | input that shows it | evidently intended | confidence | as-written member | corrected member |
|---|---|---|---|---|---|---|
| apps/dialogue/src/components/sentence_analysis.rs:75-76 | The search range is `pos..=len.saturating_sub(surf_len)`. When the cursor is 0 and the surface is longer than the sentence, the range is `0..=0`, and `sentence_chars[0..surf_len]` runs past the end and panics. | sentence "a", surfaces ["ab"] | A surface longer than the rest of the sentence is not found and takes the contiguous fallback, as happens for any cursor above 0. | not executed | Alignment.ScanStartsAsWrittenCounterexample | Alignment.ScanStarts |
