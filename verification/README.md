# anytext core, modelled in Dafny

This project models the core of the anytext language-learning generator. That
core covers:

- the in-memory session store: the generation history, the stories keyed by
  id, and the story listing with its completion flag;
- the interactive story: the prompt branch, accepting a reply, adding parts,
  assembling the story text, the latest part, and the dictionary round trip;
- the client of the text-completion service: the bounded retry loop and the
  lenient JSON reply decoder;
- the generated-text record and its dictionary form;
- the text generators: the format clause, the language-name fallback, the
  excerpt limits, and `None` for an empty reply;
- the handler steps of the web app that change or read the store: appending
  a story part, the id checks of story lookup and deletion, and the
  include-flag gating of the text endpoint.

Everything is pure: sessions, stories and records are immutable datatypes, and
each operation returns the new state. Three things the program takes from
outside are parameters instead:

- the completion service (`Gateway`, or an attempt oracle for the retry loop);
- the JSON parser (`Parser`, a partial function from text to `JValue`);
- the clock (`now: string`).

Layout:

| file | module | models |
|---|---|---|
| wrappers.dfy | Wrappers | `Option`, and `Result` for a value or a raised exception |
| pydict.dfy | PyDict | Python's insertion-ordered `dict` as an association list |
| pystr.dfy | PyStr | `str.strip`, `startswith`/`endswith`, slicing, `split`, `int()` and `str()` on integers |
| intsets.dfy | IntSets | `min`, `max` and `sorted` on finite sets of integers |
| json.dfy | Json | decoded JSON values, truthiness, `dict.get`, iteration, type names |
| language_data.dfy | LanguageData | `LANGUAGE_MAP` and `DIFFICULTY_WORDS_COUNT` |
| openai_client.dfy | OpenAIClient | MainProg/api/openai_client.py |
| story_generator.dfy | StoryGenerator | MainProg/core/story_generator.py |
| session_manager.dfy | SessionManager | MainProg/storage/session_manager.py |
| text_model.dfy | TextModel | MainProg/models/text.py |
| text_generator.dfy | TextGenerator | MainProg/core/text_generator.py |
| app.dfy | App | the handler steps of MainProg/app.py |

Story parts are keyed by the integer that their `part_<n>` key parses to.
`StoryGenerator.PartKeyRoundTrip` and `StoryGenerator.PartKeyInjective`
justify this: the key that `add_part` writes parses back to its number, and
distinct numbers give distinct keys.

## Model

| member | source | states |
|---|---|---|
| SessionManager.Get | MainProg/storage/session_manager.py:35-46 | "history" and "stories" read the session's collections. Any other key reads its stored value, or the caller's default when the key is absent. |
| SessionManager.AddToHistory | MainProg/storage/session_manager.py:58-70 | The history grows by exactly one entry at the end, and earlier entries stay in order. The new entry is the item, stamped with the clock only when it has no "timestamp". Stories and other values are untouched. |
| SessionManager.HistoryOrder | MainProg/storage/session_manager.py:58-70 | Two additions append both items, in call order. |
| SessionManager.ClearHistory | MainProg/storage/session_manager.py:72-74 | The history is empty afterwards. Stories and other values are untouched. |
| SessionManager.ClearForgets | MainProg/storage/session_manager.py:72-74 | Clearing after an addition is the same as clearing before it. |
| SessionManager.SaveStory | MainProg/storage/session_manager.py:76-86 | Saving touches only the story table. |
| SessionManager.GetStory | MainProg/storage/session_manager.py:88-99 | A story is returned exactly when its id is stored. |
| SessionManager.SaveThenGet | MainProg/storage/session_manager.py:76-99 | After `save_story(id, s)`, `get_story(id)` returns `s`, and every other id returns what it returned before. |
| SessionManager.SaveOverwrites | MainProg/storage/session_manager.py:84-86 | Saving twice under one id leaves the second story: last write wins, with no error. |
| SessionManager.SavePlacement | MainProg/storage/session_manager.py:84-86 | A new id goes to the end of the table. An existing id keeps its position, and the table keeps its length. |
| SessionManager.DeleteStory | MainProg/storage/session_manager.py:101-116 | The result is true exactly when the id was stored. A false result leaves the session unchanged. Afterwards the id is absent and every other id reads as before. |
| SessionManager.SaveThenDelete | MainProg/storage/session_manager.py:76-116 | Deleting a story just saved under a new id succeeds and restores the earlier session. |
| SessionManager.LatestNumber | MainProg/storage/session_manager.py:130 | The latest part number is 0 for no parts; otherwise it is a stored part number, and every part number is at most it. |
| SessionManager.IsComplete | MainProg/storage/session_manager.py:130-131 | The flag is `False` when the latest number is not positive; otherwise it is the "is_final" value of the latest part. |
| SessionManager.CompleteIff | MainProg/storage/session_manager.py:130-131 | A story is complete iff some part number is positive, is at least every other number, and that part's "is_final" is truthy. |
| SessionManager.EarlierFinalIgnored | MainProg/storage/session_manager.py:130-131 | A final part 1 followed by a non-final part 2 is not complete. |
| SessionManager.TenOutranksNine | MainProg/storage/session_manager.py:130-131 | Part 10 ranks above part 9, by number and not by key text. |
| SessionManager.EmptyStoryIncomplete | MainProg/storage/session_manager.py:129-131 | A story without parts has 0 parts and is not complete. |
| SessionManager.Summarize | MainProg/storage/session_manager.py:133-141 | The summary's id and title are both the story id (not the stored title). The parts count is the number of parts. Language, level and last update are the story's own. |
| SessionManager.ListStories | MainProg/storage/session_manager.py:125-143 | Exactly one summary per stored story, in table order. |
| StoryGenerator.StoryPrompt | MainProg/core/story_generator.py:37-76 | The opening prompt is used iff the part number is 1. A continuation carries the previous text, the choice made and the part number. Both carry the language and level. |
| StoryGenerator.IsFinalRequested | MainProg/core/story_generator.py:40-76 | "is_final" is requested iff the part number is not 1. |
| StoryGenerator.GenerateStoryPart | MainProg/core/story_generator.py:78-83 | A part is returned iff the service answered with non-empty text whose cleaned form parses to a JSON object; that object is the part. |
| StoryGenerator.PartKeyRoundTrip | MainProg/core/story_generator.py:133 | The key `part_<n>` parses back to `n` by the `int(key.split('_')[1])` step used at lines 158 and 179. |
| StoryGenerator.PartKeyInjective | MainProg/core/story_generator.py:133 | Two part numbers share a key only if they are equal. |
| StoryGenerator.MakePart | MainProg/core/story_generator.py:134-142 | The part holds the text, both choices and the final flag, and has "choice_made" iff the choice made is non-empty. |
| StoryGenerator.AddPart | MainProg/core/story_generator.py:133-145 | Part `n` becomes the new part, overwriting any earlier part `n`. Every other part, and every other field of the story, is unchanged. The new part is returned. |
| StoryGenerator.GetCurrentText | MainProg/core/story_generator.py:157-167 | The loop returns the text of the parts numbered up to the bound, in ascending order, each followed by a blank line. It fails where a text is not a string. |
| StoryGenerator.PartsTextDefined | MainProg/core/story_generator.py:165 | Concatenation succeeds iff every visited part's text is a string. |
| StoryGenerator.CurrentTextEmpty | MainProg/core/story_generator.py:157-167 | A story without parts has the empty text, whatever the bound. |
| StoryGenerator.CurrentTextPrefix | MainProg/core/story_generator.py:157-167 | The text up to any part is a prefix of the whole text. |
| StoryGenerator.CurrentTextAppend | MainProg/core/story_generator.py:133-167 | Adding a part numbered above all others appends its text and a blank line to the whole text. |
| StoryGenerator.SortedEligibleIsPrefix | MainProg/core/story_generator.py:158-162 | The parts visited before the loop stops are a prefix of all parts in ascending order. |
| StoryGenerator.LatestPart | MainProg/core/story_generator.py:169-186 | Nothing for a story without parts; otherwise a stored part number at least every other, with that number's part. |
| StoryGenerator.LatestAfterAdd | MainProg/core/story_generator.py:133-186 | After adding a part numbered above all others, that part is the latest. |
| StoryGenerator.PartRoundTrip | MainProg/core/story_generator.py:134-145 | A part dictionary read back gives the same part, "choice_made" included. |
| StoryGenerator.PartsRoundTrip | MainProg/core/story_generator.py:195-222 | Parts written under their keys read back as exactly the listed numbers, each with its own part. |
| StoryGenerator.FromDict | MainProg/core/story_generator.py:205-227 | Reading needs a dictionary with title, language and level, whose parts entry is a dictionary of part dictionaries under `part_<n>` keys. Title, language and level are taken as stored, and parts are read by number. Vocabulary, translation and translation language default to `None`. |
| StoryGenerator.ToDict | MainProg/core/story_generator.py:188-203 | `to_dict` gives an object with the keys title, language, level, parts, vocabulary, translation and translation_language, in that order, holding the story's fields. The "parts" object has one entry per part, no key twice, and maps `part_<n>` to part `n`. |
| StoryGenerator.StoryRoundTrip | MainProg/core/story_generator.py:188-227 | `from_dict(to_dict(s))` gives `s` back: title, language, level, every part, vocabulary, translation and translation language. |
| OpenAIClient.CallApi | MainProg/api/openai_client.py:33-52 | At most `max_retries` attempts are made. The answer of the first attempt that gets one is returned, and every attempt before it failed. After `max_retries` failures, or when `max_retries <= 0`, the result is `None`. |
| OpenAIClient.DropJsonFence | MainProg/api/openai_client.py:71-72 | A leading "```json" (7 characters) is removed, and nothing else is. |
| OpenAIClient.DropFence | MainProg/api/openai_client.py:73-74 | A trailing "```" (3 characters) is removed, and nothing else is. |
| OpenAIClient.Clean | MainProg/api/openai_client.py:68-76 | The cleaned reply has no surrounding whitespace and is no longer than the reply. |
| OpenAIClient.ParseJsonResponse | MainProg/api/openai_client.py:66-81 | The reply decodes iff its cleaned form parses, to that value. Otherwise the result is the original reply, untouched. |
| OpenAIClient.CleanFenced | MainProg/api/openai_client.py:68-76 | A fenced reply with any whitespace around the fences cleans to its stripped body. |
| OpenAIClient.FencedAndBareAgree | MainProg/api/openai_client.py:68-78 | The fenced form "```json\n<J>\n```" and the bare form `<J>` decode to the same value. |
| OpenAIClient.UnparsedKeepsOriginal | MainProg/api/openai_client.py:79-81 | When the cleaned text does not parse, the original reply comes back, fences and whitespace included. |
| OpenAIClient.PlainFenceKept | MainProg/api/openai_client.py:71-72 | A bare "```" opener is not removed. |
| LanguageData.LanguageName | MainProg/core/text_generator.py:37 | The language name resolves through `LANGUAGE_MAP` and falls back to the input, so it is always the input. |
| LanguageData.DifficultyWordsCount | MainProg/app.py:132 | 5, 8 or 10 key words for the three known levels, and 5 for any other level. |
| TextGenerator.FormatClause | MainProg/core/text_generator.py:40-50 | The clause is empty for "General". A known type gets its phrase, and an unknown type gets an empty phrase. |
| TextGenerator.FormatClauseKnown | MainProg/core/text_generator.py:42-50 | Each of the six known types gets its own phrase. |
| TextGenerator.FormatClauseEmptyIff | MainProg/core/text_generator.py:40-50 | The clause is empty iff the type is "General". |
| TextGenerator.Excerpt | MainProg/core/text_generator.py:111 | The excerpt is a prefix of the text, no longer than the limit, and equal to the text iff the text fits. |
| TextGenerator.TextPrompt | MainProg/core/text_generator.py:37-57 | The text prompt carries the input language, level, word count and topic, and the format clause of the type. |
| TextGenerator.TopicPrompt | MainProg/core/text_generator.py:81-82 | The topic prompt carries the input language and level. |
| TextGenerator.SummaryPrompt | MainProg/core/text_generator.py:107-111 | The summary prompt embeds at most the first 2000 characters, and the whole text when it fits. |
| TextGenerator.KeyWordsPrompt | MainProg/core/text_generator.py:139-149 | The key-word prompt embeds at most the first 1500 characters and carries the count. |
| TextGenerator.QuestionsPrompt | MainProg/core/text_generator.py:180-189 | The questions prompt embeds at most the first 1500 characters and carries the count. |
| TextGenerator.ExercisesPrompt | MainProg/core/text_generator.py:220-235 | The exercises prompt embeds at most the first 1500 characters and carries the count. |
| TextGenerator.TranslationPrompt | MainProg/core/text_generator.py:266-277 | The translation prompt embeds at most the first 2000 characters and carries both language names. |
| TextGenerator.StudyExcerptWithinSummary | MainProg/core/text_generator.py:111-189 | The 1500-character excerpt is the start of the 2000-character one. For a long text they have exactly those lengths. |
| TextGenerator.GenerateText | MainProg/core/text_generator.py:10-59 | The reply, unchanged, to a passage prompt carrying the language, level, word count, topic and the type's format clause. |
| TextGenerator.TopicSuggestion | MainProg/core/text_generator.py:61-83 | The reply, unchanged, to a topic prompt carrying only the language and level. |
| TextGenerator.GenerateSummary | MainProg/core/text_generator.py:85-113 | The reply, unchanged, to a summary prompt embedding the first 2000 characters of the text. |
| TextGenerator.ExtractKeyWords | MainProg/core/text_generator.py:115-154 | `None` iff the reply to a prompt for `count` key words, over the first 1500 characters, is missing or empty. Otherwise the lenient decoding of that reply. |
| TextGenerator.GenerateQuestions | MainProg/core/text_generator.py:156-194 | `None` iff the reply to a prompt for `count` questions (default 5), over the first 1500 characters, is missing or empty. Otherwise the lenient decoding of that reply. |
| TextGenerator.GenerateExercises | MainProg/core/text_generator.py:196-240 | `None` iff the reply to a prompt for `count` exercises (default 3), over the first 1500 characters, is missing or empty. Otherwise the lenient decoding of that reply. |
| TextGenerator.GenerateTranslation | MainProg/core/text_generator.py:242-282 | `None` iff the reply to a prompt translating the first 2000 characters from the source language into the target language is missing or empty. Otherwise the lenient decoding of that reply. |
| TextGenerator.JsonReply | MainProg/core/text_generator.py:151-154 | `None` iff the service gave no reply or an empty one. Otherwise the result is the lenient decoding of the reply. |
| TextGenerator.UnparsedReplyKept | MainProg/core/text_generator.py:279-282 | A non-empty reply that does not parse comes back as raw text, never as `None`. |
| TextGenerator.FenceInvisible | MainProg/core/text_generator.py:151-154 | A fenced and a bare non-empty reply make the generators return the same value. |
| TextModel.ConvertItem | MainProg/models/text.py:87-99 | A record becomes its fields in order, and a dictionary stays as it is. The empty string gives `{}`, other strings give `{"value": s}`, and `None`, booleans and numbers give `{"value": str(v)}`. |
| TextModel.ConvertList | MainProg/models/text.py:86-100 | One dictionary per item, at the same position. |
| TextModel.ConvertAppend | MainProg/models/text.py:86-100 | Converting a concatenation concatenates the conversions, so order is preserved. |
| TextModel.ListingOf | MainProg/app.py:133-145 | A decoded list becomes a Python list with the same elements. Anything else is kept as it is. Truthiness is preserved. |
| TextModel.ListingToDict | MainProg/models/text.py:65-68 | An empty field gives `None`, and a non-empty list gives its converted list. A truthy value that is not iterable raises `TypeError`. |
| TextModel.ToDict | MainProg/models/text.py:58-72 | `to_dict` succeeds iff each list field converts, and then gives the 13 entries in order. |
| TextModel.ToDictRaisesIff | MainProg/models/text.py:65-99 | `to_dict` raises iff some list field holds a truthy value that is neither a list, a dictionary nor a string. |
| TextModel.MakeRecord | MainProg/models/text.py:130 | `Record(**d)` succeeds iff `d` is a dictionary with exactly the record's field names. The record is of that class, and each field takes the value stored under its own name, whatever the entry order. |
| TextModel.MakeRecords | MainProg/models/text.py:130-146 | A comprehension over records succeeds iff every element makes a record. The records come in order. |
| TextModel.ReadListing | MainProg/models/text.py:128-146 | A falsy or unrecognised entry leaves the field empty. A truthy list reads iff all its elements make records, and it reads as those records. When wrapping is allowed (questions, exercises), a truthy dictionary holding the key reads its inner value the same way. An inner value that cannot be iterated raises `TypeError`. |
| TextModel.FromDict | MainProg/models/text.py:113-146 | A missing topic, text, language or level raises. With all four present, reading succeeds iff each of the four list fields reads. On success, the four required fields are the stored values, and each list field is what its entry reads as. The defaults are "General" for text_type, `None` for summary and translation_language, the clock for timestamp, and 0 for word_count. |
| TextModel.FromDictMinimal | MainProg/models/text.py:113-125 | A dictionary with only the four required entries reads as a new record with every default. |
| TextModel.WrappedAccepted | MainProg/models/text.py:132-142 | A questions or exercises entry that wraps its list under the same key reads like the bare list. Key words and translation so wrapped leave the field empty. |
| TextModel.RecordBack | MainProg/models/text.py:88-90 | `Record(**vars(r))` rebuilds `r`. |
| TextModel.ConvertedTextReadBack | MainProg/models/text.py:58-146 | For every text whose `to_dict` succeeds, including texts holding decoded replies, `from_dict` of the result keeps the nine scalar fields. It fails exactly when a stored list holds an element that makes no record of its class. Otherwise each list field reads back as the records its stored list makes, and a field stored as `None` reads back empty. |
| TextModel.TextRoundTrip | MainProg/models/text.py:58-146 | `from_dict(to_dict(g))` gives back every field of `g` when its list fields hold records of their classes. An empty list comes back empty. |
| TextModel.WrappedReplyLost | MainProg/app.py:137-145 | As written: a wrapped questions reply, stored as it is, converts to `[{"value": "questions"}]`, and that cannot be read back as questions. |
| TextModel.WrappedReplyKept | MainProg/models/text.py:135-136 | Corrected: the unwrapped reply converts to exactly its question objects. |
| TextModel.WrappedQuestionsRoundTrip | MainProg/models/text.py:132-136 | Corrected: the stored question list reads back as the questions of the reply. |
| App.ReplyPart | MainProg/app.py:219-229 | The stored part maps "story_text" to its text. Missing texts and choices default to "" and a missing final flag to `False`. "choice_made" is recorded iff it is non-empty. |
| App.FinalPartKeepsChoices | MainProg/app.py:220-226 | A reply with "is_final" true and two non-empty choices is stored with the final flag and both choices. The endpoint copies the choices whatever the flag says. |
| App.StoryFor | MainProg/app.py:207-217 | The stored story is used when there is one. Otherwise a new story is titled with the id, in the request's language and level, with no parts. |
| App.AppendStoryPart | MainProg/app.py:207-235 | Part `n` becomes the reply's part, the story is stamped with the clock and saved. Its title, language, level and other parts stay those of the stored (or new) story. Other stories are untouched. |
| App.FirstPartCreatesStory | MainProg/app.py:207-235 | A part under an unknown id creates a story with only that part. |
| App.LaterPartKeepsStory | MainProg/app.py:207-235 | A part under a known id keeps the story's title, language and level, whatever the request says, and replaces only part `n`. |
| App.StoryIdOf | MainProg/app.py:207 | The story id defaults to the topic. |
| App.StoryPartHandler | MainProg/app.py:203-242 | A failed generation, meaning no reply or an empty object, answers 500 before the store is read or written. Otherwise the reply is appended under the story id. |
| App.GetStoryHandler | MainProg/app.py:254-265 | A missing or empty id answers 400, an unknown id 404, and a stored id returns its story. |
| App.DeleteStoryHandler | MainProg/app.py:288-300 | A missing or empty id answers 400 with the store untouched. An unknown id answers 500 with the store untouched. A stored id is deleted with the success message. |
| App.SavedStoryFound | MainProg/app.py:254-265 | A saved story is found under its non-empty id. |
| App.DeleteThenLookup | MainProg/app.py:254-300 | After a deletion, lookup answers 404, and deleting again answers 500 and changes nothing. |
| App.WithSummary | MainProg/app.py:126-129 | The summary is set only when it was asked for and the service returned a non-empty summary. Nothing else changes. |
| App.Answer | MainProg/app.py:133-145 | A generator's result counts iff it is present and truthy as a Python value. |
| App.WithKeyWords | MainProg/app.py:131-135 | Key words are requested with the level's word count and stored only when asked for and truthy. Nothing else changes. |
| App.WithQuestions | MainProg/app.py:137-140 | Questions are stored (unwrapped) only when asked for and truthy. Nothing else changes. |
| App.WithExercises | MainProg/app.py:142-145 | Exercises are stored (unwrapped) only when asked for and truthy. Nothing else changes. |
| App.WithTranslation | MainProg/app.py:147-158 | A translation is requested only when asked for and the target language differs from the text language. It and the target language are stored only for a truthy result. |
| App.SameLanguageNotTranslated | MainProg/app.py:148-149 | For the text's own language the step leaves the record unchanged, whatever the service would answer. |
| App.TopicOf | MainProg/app.py:89-93 | A given topic is used. Otherwise a non-empty suggestion is used, or there is no topic. |
| App.BuildText | MainProg/app.py:109-158 | The record carries the request's topic, text, language, level, type and word count, stamped with the clock. Each optional field is set exactly when it was requested and its answer is truthy, and otherwise stays at its default. The summary is the service's text. Key words are asked for with the level's word count. Questions and exercises use the default counts 5 and 3 and keep the list a wrapped reply holds (the corrected steps). The translation goes into the requested language, "English" by default, and is skipped when that is the text's own language. |
| App.GenerateTextHandler | MainProg/app.py:89-168 | No topic or no text answers 500 with the session untouched. Otherwise the built record is finished. Stories and values are never changed. |
| App.Finish | MainProg/app.py:160-168 | A conversion error answers 500 with its message and saves nothing. Otherwise the dictionary is returned, and added to the history exactly when history saving is on. |
| App.TimestampKept | MainProg/storage/session_manager.py:65-66 | A converted record has its own timestamp, so the history does not stamp it again. |
| App.NoIncludesBuild | MainProg/app.py:109-158 | With no include flag, the record is the plain new text. |
| App.NoIncludesPlainText | MainProg/app.py:109-168 | With no include flag, the endpoint finishes the plain new text. |

## Left out

- `SessionManager.set`, `export_data`, `import_data`, `save_to_file` and `load_from_file` are not modelled: they are setters and file I/O.
- The completion call itself is outside the model: the network, `time.sleep`, `API_TIMEOUT`, the model name, temperature and top_p. `CallApi` sees attempts through an oracle, and the generators see the whole call as the `Gateway` parameter.
- The JSON grammar of `json.loads` is not modelled; it is the `Parser` parameter. JSON numbers are integers only, since floats do not matter to any modelled decision. Duplicate keys in a JSON object are not modelled.
- `datetime.now()` is the `now` parameter, and the same reading is used for every stamp within one request.
- `dict(xs)` on a list inside `_convert_to_dict_list` is the `ListCoercion` parameter, because its pairing rules for nested lists are CPython's. The `str()` of lists and dictionaries is outside the model.
- CPython's exception texts are not modelled. `TypeError` from `Record(**x)` is reported as "TypeError", and not-iterable errors and `KeyError` use Python's usual wording.
- Flask routing, page rendering and request decoding are left out. The `int()` and `float()` conversions of request fields are not modelled. Request fields are taken as already typed: strings for ids, topics and languages, and booleans for flags. A `story_id` sent as JSON `null` is not distinguished from a missing one.
- The list-stories and get-history endpoints are left out; they only wrap `list_stories` and `get('history')`. The catch-all `except Exception` handlers are left out, except for the `to_dict` error that `App.Finish` models.
- Stories are stored with parts keyed by part number. Two keys of the same story that parse to one number (such as `part_05` and `part_5`) cannot occur in the model. Keys without a number, which make `get_current_text`, `get_latest_part` and `list_stories` raise, cannot occur either.
- StoryGenerator.ToDict writes parts in ascending part order, and the Python method writes them in insertion order. Reading back does not depend on the order.
- App.ReplyPart: a final part is meant to have empty choices. The prompt at MainProg/core/story_generator.py:66-73 only asks the service for that, and nothing in the program checks it, so the model states no such rule; `App.FinalPartKeepsChoices` shows a final part keeping its choices.
- PyStr.ParseInt: models only the ASCII-digit subset of `int()`. It rejects the underscores between digits and the non-ASCII decimal digits that Python accepts. Only canonical `part_<n>` keys are read back, and those use neither.
- Prompt wording is not modelled beyond which template is chosen and what it embeds.
- `MainProg/web/static/js/app.js` and `MainProg/config/settings.py` are not part of this model. `LANGUAGE_MAP` and `DIFFICULTY_WORDS_COUNT` are copied as constants.
- App.WithQuestions: stores the list a wrapped reply holds, the corrected behaviour recorded under Findings; MainProg/app.py:140 stores the whole reply object, which `TextModel.ListingOf` and `TextModel.WrappedReplyLost` model.
- App.WithExercises: stores the list a wrapped reply holds, the corrected behaviour recorded under Findings; MainProg/app.py:145 stores the whole reply object.
- App.BuildText: its questions and exercises come from the corrected steps above, so for a wrapped reply the record holds the unwrapped list, not the reply object that MainProg/app.py:137-145 stores.
- App.GenerateTextHandler: the record it converts, saves to the history and returns is the one `App.BuildText` builds, so for a wrapped reply the questions and exercises are the reply's own objects, where the program as written saves and returns `[{"value": "questions"}]` or `[{"value": "exercises"}]`.
- StoryGenerator.FromDict: gives `None` for some inputs that MainProg/core/story_generator.py:222 accepts, because the model keeps parts by number. These are a parts entry that is not a dictionary, a key that is not the canonical `part_<n>` of its number, and a part that lacks "text", "choice_1", "choice_2" or "is_final". Python keeps such a parts entry unchecked, and it fails only later, in `get_current_text`, `get_latest_part` or `list_stories`, or never.

## Findings

| source | as written | input that shows it | evidently intended | confidence | as-written member | corrected member |
|---|---|---|---|---|---|---|
| MainProg/app.py:137-145 | The questions and exercises generators ask for an object `{"questions": [...]}` / `{"exercises": [...]}`, and the endpoint stores the decoded object as the field. `to_dict` then iterates the object's keys, so the field becomes `[{"value": "questions"}]`, which `from_dict` cannot read back. | a reply `{"questions": [{"question": "q", "answer": "a"}]}` | keep the list the object wraps, the shape `from_dict` already accepts at MainProg/models/text.py:135-136 and 141-142 | medium; not executed | TextModel.WrappedReplyLost | TextModel.WrappedReplyKept |
